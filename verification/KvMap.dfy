/** The table against a plain map. */
module KvMap {
  import opened Words
  import opened CStrings
  import opened KvLayout
  import opened KvTable

  type Model = map<seq<byte>, seq<byte>>

  // ----- the invariant of a row -----

  /** Occupied slots come first, keys are distinct, every key belongs to row i. */
  ghost predicate GoodRow(r: Row, i: nat) {
    && IsRow(r)
    && (r[0].Empty? ==> r[1].Empty?)
    && (r[0].Entry? ==> RowOf(r[0].key) == i)
    && (r[1].Entry? ==> RowOf(r[1].key) == i && r[1].key != r[0].key)
  }

  ghost predicate Good(t: Table) {
    IsTable(t) && forall i :: 0 <= i < |t| ==> GoodRow(t[i], i)
  }

  function Lookup(t: Table, key: seq<byte>): Option<seq<byte>>
    requires IsTable(t)
  {
    GetRow(t[RowOf(key)], key)
  }

  function MapGet(m: Model, key: seq<byte>): Option<seq<byte>> {
    if key in m then Some(m[key]) else None
  }

  /** Every key the table can hold is looked up as in the map. */
  ghost predicate Agrees(t: Table, m: Model) {
    && IsTable(t)
    && (forall k :: k in m ==> IsKey(k))
    && (forall k :: IsKey(k) ==> Lookup(t, k) == MapGet(m, k))
  }

  // ----- the map with 384 buckets of two keys -----

  /** Two keys other than this one fill its row. */
  ghost predicate BucketFull(m: Model, key: seq<byte>) {
    key !in m && exists k1, k2 :: k1 in m && k2 in m && k1 != k2 && RowOf(k1) == RowOf(k2) == RowOf(key)
  }

  ghost function MapStep(m: Model, c: Call, io: Io): (r: (Model, Reply)) {
    match c
    case Set(key, v) =>
      if v == [] || !io.readOk || BucketFull(m, key) || !io.writeOk then (m, FAIL) else (m[key := Cut(v)], OK)
    case Get(key, size) =>
      if size <= 0 || !io.readOk || key !in m then (m, FAIL) else (m, Reply(0, Take(m[key], size)))
    case Del(key) =>
      if !io.readOk || !io.writeOk then (m, FAIL) else (m - {key}, OK)
  }

  /** A deletion that leaves an empty slot in front of a live one. */
  predicate MakesHole(r: Row, key: seq<byte>)
    requires |r| == TABLE_ROW_SIZE
  {
    HoldsKey(r[0], key) && r[1].Entry?
  }

  ghost predicate Plain(t: Table, c: Call)
    requires IsTable(t)
  {
    IsKey(c.key) && (c.Del? ==> !MakesHole(t[RowOf(c.key)], c.key))
  }

  // ----- the created file -----

  function EmptyRow(): (r: Row)
    ensures IsRow(r)
  {
    [Empty, Empty]
  }

  function EmptyTable(): (t: Table)
    ensures IsTable(t)
  {
    seq(TABLE_COL_SIZE, _ => EmptyRow())
  }

  lemma EmptyTableAgrees()
    ensures Good(EmptyTable()) && Agrees(EmptyTable(), map[])
  {
  }

  // ----- one row against the map -----

  /** In a good row a key is found if and only if one of the slots holds it, and then with that slot's value. */
  lemma GoodRowGet(r: Row, i: nat, key: seq<byte>)
    requires GoodRow(r, i)
    ensures GetRow(r, key) == if HoldsKey(r[0], key) then Some(r[0].value)
                              else if HoldsKey(r[1], key) then Some(r[1].value) else None
  {
    ProbeFrom0(r, key);
  }

  /** Set fails on a good row if and only if two other keys occupy it. */
  lemma GoodRowFull(r: Row, i: nat, key: seq<byte>, v: seq<byte>)
    requires GoodRow(r, i) && IsText(key) && v != []
    ensures PutRow(r, key, v).None? <==>
            r[0].Entry? && r[1].Entry? && !HoldsKey(r[0], key) && !HoldsKey(r[1], key)
  {
    ProbeFrom0(r, key);
  }

  /** A successful Set keeps the row good, stores the value and leaves the other keys alone. */
  lemma GoodRowPut(r: Row, i: nat, key: seq<byte>, v: seq<byte>, other: seq<byte>)
    requires GoodRow(r, i) && IsKey(key) && RowOf(key) == i && v != []
    requires PutRow(r, key, v).Some?
    ensures var q := PutRow(r, key, v).value;
            && GoodRow(q, i)
            && GetRow(q, key) == Some(Cut(v))
            && (other != key ==> GetRow(q, other) == GetRow(r, other))
  {
    ProbeFrom0(r, key);
    var q := PutRow(r, key, v).value;
    GoodRowGet(q, i, key);
    GoodRowGet(q, i, other);
    GoodRowGet(r, i, other);
  }

  // ----- one call against the map -----

  /** A failing Set is a full bucket, and nothing else, as long as rows can be read and written. */
  lemma FullIsFull(t: Table, m: Model, key: seq<byte>, v: seq<byte>)
    requires Good(t) && Agrees(t, m) && IsKey(key) && v != []
    ensures PutRow(t[RowOf(key)], key, v).None? <==> BucketFull(m, key)
  {
    var i := RowOf(key);
    var r := t[i];
    GoodRowFull(r, i, key, v);
    GoodRowGet(r, i, key);
    if PutRow(r, key, v).None? {
      var k1, k2 := r[0].key, r[1].key;
      GoodRowGet(r, i, k1);
      GoodRowGet(r, i, k2);
      assert Lookup(t, k1).Some? && Lookup(t, k2).Some? && Lookup(t, key).None?;
    }
    if BucketFull(m, key) {
      var k1, k2 :| k1 in m && k2 in m && k1 != k2 && RowOf(k1) == RowOf(k2) == RowOf(key);
      assert Lookup(t, k1).Some? && Lookup(t, k2).Some? && Lookup(t, key).None?;
      GoodRowGet(r, i, k1);
      GoodRowGet(r, i, k2);
    }
  }

  /** Tables that differ in row i only agree on the keys of the other rows. */
  lemma OtherRows(t: Table, i: nat, q: Row, k: seq<byte>)
    requires IsTable(t) && i < |t| && IsRow(q) && RowOf(k) != i
    ensures Lookup(t[i := q], k) == Lookup(t, k)
  {
  }

  /** Set, Get and a Del that makes no hole: the reply is the map's, and table and map still agree. */
  lemma StepAgrees(t: Table, m: Model, c: Call, io: Io)
    requires Good(t) && Agrees(t, m) && Plain(t, c)
    ensures var (u, r) := Step(t, c, io);
            var (n, s) := MapStep(m, c, io);
            r == s && Good(u) && Agrees(u, n)
  {
    var key := c.key;
    var i := RowOf(key);
    var (u, r) := Step(t, c, io);
    var (n, s) := MapStep(m, c, io);
    match c {
      case Set(_, v) =>
        if v != [] {
          FullIsFull(t, m, key, v);
        }
        if r == OK {
          SetAgrees(t, m, key, v);
        }
      case Get(_, _) =>
        assert Lookup(t, key) == MapGet(m, key);
      case Del(_) =>
        if r == OK {
          DelAgrees(t, m, key);
        }
    }
  }

  /** A good row in place of row i makes the table agree with a map n that differs from m on keys of row i only. */
  lemma RowAgrees(t: Table, m: Model, i: nat, q: Row, n: Model)
    requires Good(t) && Agrees(t, m) && i < |t| && GoodRow(q, i)
    requires forall k :: k in n ==> IsKey(k)
    requires forall k :: IsKey(k) ==> MapGet(n, k) == if RowOf(k) == i then GetRow(q, k) else MapGet(m, k)
    ensures Good(t[i := q]) && Agrees(t[i := q], n)
  {
    forall k | IsKey(k)
      ensures Lookup(t[i := q], k) == MapGet(n, k)
    {
      assert Lookup(t, k) == MapGet(m, k);
      if RowOf(k) != i {
        OtherRows(t, i, q, k);
      }
    }
  }

  lemma SetAgrees(t: Table, m: Model, key: seq<byte>, v: seq<byte>)
    requires Good(t) && Agrees(t, m) && IsKey(key) && v != []
    requires PutRow(t[RowOf(key)], key, v).Some?
    ensures var u := t[RowOf(key) := PutRow(t[RowOf(key)], key, v).value];
            Good(u) && Agrees(u, m[key := Cut(v)])
  {
    var i := RowOf(key);
    var q, n := PutRow(t[i], key, v).value, m[key := Cut(v)];
    GoodRowPut(t[i], i, key, v, key);
    forall k | IsKey(k)
      ensures MapGet(n, k) == if RowOf(k) == i then GetRow(q, k) else MapGet(m, k)
    {
      if RowOf(k) == i {
        GoodRowPut(t[i], i, key, v, k);
        assert Lookup(t, k) == MapGet(m, k);
      }
    }
    RowAgrees(t, m, i, q, n);
  }

  /** After a Del the table agrees with the map without the key if and only if the Del made no hole. */
  lemma DelAgrees(t: Table, m: Model, key: seq<byte>)
    requires Good(t) && Agrees(t, m) && IsKey(key)
    ensures var u := t[RowOf(key) := RmRow(t[RowOf(key)], key)];
            && (Agrees(u, m - {key}) <==> !MakesHole(t[RowOf(key)], key))
            && (Good(u) <==> !MakesHole(t[RowOf(key)], key))
  {
    HoleDisagrees(t, m, key);
    if !MakesHole(t[RowOf(key)], key) {
      NoHoleAgrees(t, m, key);
    }
  }

  lemma HoleDisagrees(t: Table, m: Model, key: seq<byte>)
    requires Good(t) && Agrees(t, m) && IsKey(key)
    ensures var u := t[RowOf(key) := RmRow(t[RowOf(key)], key)];
            MakesHole(t[RowOf(key)], key) ==> !Agrees(u, m - {key}) && !Good(u)
  {
    var i := RowOf(key);
    var r := t[i];
    if MakesHole(r, key) {
      var q := RmRow(r, key);
      var u, n := t[i := q], m - {key};
      RmRowIs(r, key);
      var k := r[1].key;
      GoodRowGet(r, i, k);
      assert Lookup(t, k).Some? && k in n;
      ProbeFrom0(q, k);
      assert Lookup(u, k) == None != MapGet(n, k);
      assert !GoodRow(u[i], i);
    }
  }

  lemma NoHoleAgrees(t: Table, m: Model, key: seq<byte>)
    requires Good(t) && Agrees(t, m) && IsKey(key) && !MakesHole(t[RowOf(key)], key)
    ensures var u := t[RowOf(key) := RmRow(t[RowOf(key)], key)];
            Agrees(u, m - {key}) && Good(u)
  {
    var i := RowOf(key);
    var r := t[i];
    var q, n := RmRow(r, key), m - {key};
    RmRowIs(r, key);
    assert GoodRow(q, i);
    forall k | IsKey(k)
      ensures MapGet(n, k) == if RowOf(k) == i then GetRow(q, k) else MapGet(m, k)
    {
      if RowOf(k) == i {
        GoodRowGet(r, i, k);
        GoodRowGet(q, i, k);
        assert Lookup(t, k) == MapGet(m, k);
      }
    }
    RowAgrees(t, m, i, q, n);
  }

  // ----- runs -----

  datatype Job = Job(call: Call, io: Io)

  ghost predicate AreTexts(jobs: seq<Job>) {
    forall i :: 0 <= i < |jobs| ==> IsText(jobs[i].call.key)
  }

  /** The table after the jobs, and the replies they got. */
  function Run(t: Table, jobs: seq<Job>): (r: (Table, seq<Reply>))
    requires IsTable(t) && AreTexts(jobs)
    ensures IsTable(r.0) && |r.1| == |jobs|
  {
    if jobs == [] then (t, [])
    else
      var n := |jobs| - 1;
      var (u, replies) := Run(t, jobs[..n]);
      var (w, reply) := Step(u, jobs[n].call, jobs[n].io);
      (w, replies + [reply])
  }

  lemma {:induction false} RunOne(t: Table, job: Job)
    requires IsTable(t) && IsText(job.call.key)
    ensures AreTexts([job]) && Run(t, [job]).0 == Step(t, job.call, job.io).0
  {
    assert [job][..0] == [];
    assert Run(t, [job][..0]) == (t, []);
  }

  ghost function MapRun(m: Model, jobs: seq<Job>): (r: (Model, seq<Reply>))
    ensures |r.1| == |jobs|
  {
    if jobs == [] then (m, [])
    else
      var n := |jobs| - 1;
      var (u, replies) := MapRun(m, jobs[..n]);
      var (w, reply) := MapStep(u, jobs[n].call, jobs[n].io);
      (w, replies + [reply])
  }

  /** Every key can be stored whole, and no Del of the run makes a hole. */
  ghost predicate PlainRun(t: Table, jobs: seq<Job>)
    requires IsTable(t) && AreTexts(jobs)
  {
    forall i :: 0 <= i < |jobs| ==> Plain(Run(t, jobs[..i]).0, jobs[i].call)
  }

  /** Every plain run, from any good table, gives the replies the map gives, and keeps every row's invariant. */
  lemma {:induction false} RunAgrees(t: Table, m: Model, jobs: seq<Job>)
    requires Good(t) && Agrees(t, m) && AreTexts(jobs) && PlainRun(t, jobs)
    ensures Run(t, jobs).1 == MapRun(m, jobs).1
    ensures Good(Run(t, jobs).0) && Agrees(Run(t, jobs).0, MapRun(m, jobs).0)
    decreases |jobs|
  {
    if jobs != [] {
      var n := |jobs| - 1;
      forall i | 0 <= i < n
        ensures Plain(Run(t, jobs[..n][..i]).0, jobs[..n][i].call)
      {
        assert jobs[..n][..i] == jobs[..i];
      }
      RunAgrees(t, m, jobs[..n]);
      StepAgrees(Run(t, jobs[..n]).0, MapRun(m, jobs[..n]).0, jobs[n].call, jobs[n].io);
    }
  }

  /** Every run of Set and Get over keys of at most 127 bytes, from the created file, agrees with the map. */
  lemma {:induction false} SetGetRunAgrees(jobs: seq<Job>)
    requires AreTexts(jobs)
    requires forall i :: 0 <= i < |jobs| ==> IsKey(jobs[i].call.key) && !jobs[i].call.Del?
    ensures Run(EmptyTable(), jobs).1 == MapRun(map[], jobs).1
    ensures Good(Run(EmptyTable(), jobs).0) && Agrees(Run(EmptyTable(), jobs).0, MapRun(map[], jobs).0)
  {
    EmptyTableAgrees();
    RunAgrees(EmptyTable(), map[], jobs);
  }

  // ----- what a run is worth, without the map -----

  /** Call j is a Set of the key that answered 0, or a Del of it that did. */
  predicate Touches(jobs: seq<Job>, replies: seq<Reply>, j: nat, key: seq<byte>)
    requires j < |jobs| == |replies|
  {
    !jobs[j].call.Get? && jobs[j].call.key == key && replies[j].ret == 0
  }

  ghost predicate IsLastTouch(jobs: seq<Job>, replies: seq<Reply>, j: nat, key: seq<byte>)
    requires j < |jobs| == |replies|
  {
    Touches(jobs, replies, j, key) && forall k :: j < k < |jobs| ==> !Touches(jobs, replies, k, key)
  }

  ghost predicate IsUntouched(jobs: seq<Job>, replies: seq<Reply>, key: seq<byte>)
    requires |jobs| == |replies|
  {
    forall k :: 0 <= k < |jobs| ==> !Touches(jobs, replies, k, key)
  }

  lemma {:induction false} MapUntouched(m: Model, jobs: seq<Job>, key: seq<byte>)
    requires IsUntouched(jobs, MapRun(m, jobs).1, key)
    ensures MapGet(MapRun(m, jobs).0, key) == MapGet(m, key)
    decreases |jobs|
  {
    if jobs != [] {
      var n := |jobs| - 1;
      assert !Touches(jobs, MapRun(m, jobs).1, n, key);
      forall k | 0 <= k < n
        ensures !Touches(jobs[..n], MapRun(m, jobs[..n]).1, k, key)
      {
        assert !Touches(jobs, MapRun(m, jobs).1, k, key);
      }
      MapUntouched(m, jobs[..n], key);
    }
  }

  lemma {:induction false} MapLastTouch(m: Model, jobs: seq<Job>, j: nat, key: seq<byte>)
    requires j < |jobs| && IsLastTouch(jobs, MapRun(m, jobs).1, j, key)
    ensures MapGet(MapRun(m, jobs).0, key) == if jobs[j].call.Set? then Some(Cut(jobs[j].call.value)) else None
    decreases |jobs|
  {
    var n := |jobs| - 1;
    if j < n {
      assert !Touches(jobs, MapRun(m, jobs).1, n, key);
      forall k | j < k < n
        ensures !Touches(jobs[..n], MapRun(m, jobs[..n]).1, k, key)
      {
        assert !Touches(jobs, MapRun(m, jobs).1, k, key);
      }
      MapLastTouch(m, jobs[..n], j, key);
    }
  }

  lemma {:induction false} GetAfterRun(jobs: seq<Job>, key: seq<byte>, size: int)
    requires AreTexts(jobs) && PlainRun(EmptyTable(), jobs) && IsKey(key) && size > 0
    ensures Run(EmptyTable(), jobs).1 == MapRun(map[], jobs).1
    ensures Step(Run(EmptyTable(), jobs).0, Get(key, size), Io(true, true)).1
         == match MapGet(MapRun(map[], jobs).0, key) case None => Reply(-1, []) case Some(w) => Reply(0, Take(w, size))
  {
    EmptyTableAgrees();
    RunAgrees(EmptyTable(), map[], jobs);
    assert Lookup(Run(EmptyTable(), jobs).0, key) == MapGet(MapRun(map[], jobs).0, key);
  }

  /** After every run of Set, Get and hole-free Del from the created file, a Get of a key answers 0 with the value of the
      last Set of it that answered 0, cut to 512 bytes and to the caller's size, or -1 if a Del that answered 0 came
      later. */
  lemma {:induction false} GetReturnsLastSet(jobs: seq<Job>, j: nat, key: seq<byte>, size: int)
    requires AreTexts(jobs) && PlainRun(EmptyTable(), jobs) && IsKey(key) && size > 0
    requires j < |jobs|
    ensures IsLastTouch(jobs, Run(EmptyTable(), jobs).1, j, key) ==>
              var r := Step(Run(EmptyTable(), jobs).0, Get(key, size), Io(true, true)).1;
              match jobs[j].call
              case Set(_, v) => r == Reply(0, v[..if |v| <= 512 && |v| <= size then |v| else if size <= 512 then size else 512])
              case _ => r == Reply(-1, [])
  {
    var m: Model := map[];
    GetAfterRun(jobs, key, size);
    if IsLastTouch(jobs, MapRun(m, jobs).1, j, key) {
      MapLastTouch(m, jobs, j, key);
      if jobs[j].call.Set? {
        TakeCut(jobs[j].call.value, size);
      }
    }
  }

  /** And -1 if no Set of it ever answered 0. */
  lemma {:induction false} GetMissesUnset(jobs: seq<Job>, key: seq<byte>, size: int)
    requires AreTexts(jobs) && PlainRun(EmptyTable(), jobs) && IsKey(key) && size > 0
    requires IsUntouched(jobs, Run(EmptyTable(), jobs).1, key)
    ensures Step(Run(EmptyTable(), jobs).0, Get(key, size), Io(true, true)).1 == Reply(-1, [])
  {
    var m: Model := map[];
    GetAfterRun(jobs, key, size);
    MapUntouched(m, jobs, key);
  }

  /** What Set answers: 0, or -1 for an empty value, a row that cannot be read or written, or a new key whose row is
      occupied by two others. */
  lemma SetAnswers(t: Table, m: Model, key: seq<byte>, v: seq<byte>, io: Io)
    requires Good(t) && Agrees(t, m) && IsKey(key)
    ensures var r := Step(t, Set(key, v), io).1;
            && r.data == [] && (r.ret == 0 || r.ret == -1)
            && (r.ret == -1 <==>
                  || v == [] || !io.readOk || !io.writeOk
                  || (key !in m && exists k1, k2 :: k1 in m && k2 in m && k1 != k2 && RowOf(k1) == RowOf(k2) == RowOf(key)))
  {
    if v != [] {
      FullIsFull(t, m, key, v);
    }
  }

  /** What Get answers, from any table: 0 with as much of the stored value as fits, or -1 for no room, a row that cannot be
      read, or a key that is not found. */
  lemma GetAnswers(t: Table, key: seq<byte>, size: int, io: Io)
    requires IsTable(t) && IsText(key)
    ensures var r := Step(t, Get(key, size), io).1;
            && (r == Reply(-1, []) <==> size <= 0 || !io.readOk || Lookup(t, key) == None)
            && (r != Reply(-1, []) ==>
                  var v := Lookup(t, key).value;
                  r == Reply(0, v[..if |v| < size then |v| else size]))
  {
  }
}
