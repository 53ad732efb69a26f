/** The threads once more, on bytes: the file is one array of bytes, a thread reads 1288 of them into its buffer, works on
    the buffer and writes it back.  Every step is a step of the machine on rows. */
module KvThreads {
  import opened Words
  import opened Memory
  import opened Padding
  import opened CStrings
  import opened KvLayout
  import opened KvTable
  import opened KvMap
  import opened KvConcurrent
  import KvFile

  // ----- a row buffer -----

  function LenAt(b: seq<byte>, j: nat): int
    requires |b| == ROW_LEN && j < TABLE_ROW_SIZE
  {
    LenField(ItemAt(b, j))
  }

  function KeyAt(b: seq<byte>, j: nat): seq<byte>
    requires |b| == ROW_LEN && j < TABLE_ROW_SIZE
  {
    CString(KeyField(ItemAt(b, j)))
  }

  /** The bytes of the value.  A length outside 0..512 cannot arise; it is cut to what the item holds. */
  function ValueAt(b: seq<byte>, j: nat): seq<byte>
    requires |b| == ROW_LEN && j < TABLE_ROW_SIZE
  {
    var n, v := LenAt(b, j), ValueField(ItemAt(b, j));
    if 0 <= n <= |v| then v[..n] else v
  }

  /** The search and the writes of hash_table_put, from item j on; None for a full row. */
  function PutBytes(b: seq<byte>, key: seq<byte>, v: seq<byte>, j: nat): (o: Option<seq<byte>>)
    requires |b| == ROW_LEN && |v| <= ITEM_MAX_VAL_LEN && j <= TABLE_ROW_SIZE
    ensures o.Some? ==> |o.value| == ROW_LEN
    decreases TABLE_ROW_SIZE - j
  {
    if j == TABLE_ROW_SIZE then None
    else
      var at := ITEM_MAX_LEN * j;
      if LenAt(b, j) == 0 then
        Some(Splice(Splice(Splice(b, at + 0, Strncpy(key, ITEM_MAX_KEY_LEN - 1)), at + 128, v), at + 640, LeBytes(|v|)))
      else if KeyAt(b, j) == key then
        Some(Splice(Splice(Splice(b, at + 128, Zeros(ITEM_MAX_VAL_LEN)), at + 128, v), at + 640, LeBytes(|v|)))
      else PutBytes(b, key, v, j + 1)
  }

  /** The search of hash_table_get, from item j on. */
  function GetBytes(b: seq<byte>, key: seq<byte>, j: nat): Option<seq<byte>>
    requires |b| == ROW_LEN && j <= TABLE_ROW_SIZE
    decreases TABLE_ROW_SIZE - j
  {
    if j == TABLE_ROW_SIZE || LenAt(b, j) == 0 then None
    else if KeyAt(b, j) == key then Some(ValueAt(b, j))
    else GetBytes(b, key, j + 1)
  }

  /** The loop of hash_table_rm, from item j on. */
  function RmBytes(b: seq<byte>, key: seq<byte>, j: nat): (c: seq<byte>)
    requires |b| == ROW_LEN && j <= TABLE_ROW_SIZE
    ensures |c| == ROW_LEN
    decreases TABLE_ROW_SIZE - j
  {
    if j == TABLE_ROW_SIZE || LenAt(b, j) == 0 then b
    else RmBytes(if KeyAt(b, j) == key then Splice(b, ITEM_MAX_LEN * j + 0, Zeros(ITEM_MAX_LEN)) else b, key, j + 1)
  }

  lemma {:induction false} PutBytesIs(r: Row, key: seq<byte>, v: seq<byte>, j: nat)
    requires IsRow(r) && IsText(key) && 0 < |v| <= ITEM_MAX_VAL_LEN && j <= TABLE_ROW_SIZE
    requires Probe(r, key, 0) == Probe(r, key, j)
    ensures var o := PutRow(r, key, v);
            PutBytes(EncodeRow(r), key, v, j) == if o.None? then None else Some(EncodeRow(o.value))
    decreases TABLE_ROW_SIZE - j
  {
    if j < TABLE_ROW_SIZE {
      KvFile.ReadSlot(r, j);
      if r[j].Empty? {
        InsertRow(r, j, key, v);
      } else if r[j].key == key {
        UpdateRow(r, j, v);
      } else {
        PutBytesIs(r, key, v, j + 1);
      }
    }
  }

  lemma {:induction false} GetBytesIs(r: Row, key: seq<byte>, j: nat)
    requires IsRow(r) && j <= TABLE_ROW_SIZE && Probe(r, key, 0) == Probe(r, key, j)
    ensures GetBytes(EncodeRow(r), key, j) == GetRow(r, key)
    decreases TABLE_ROW_SIZE - j
  {
    if j < TABLE_ROW_SIZE {
      KvFile.ReadSlot(r, j);
      if r[j].Entry? && r[j].key != key {
        GetBytesIs(r, key, j + 1);
      }
    }
  }

  lemma {:induction false} RmBytesIs(r: Row, key: seq<byte>, j: nat)
    requires IsRow(r) && j <= TABLE_ROW_SIZE
    ensures RmBytes(EncodeRow(r), key, j) == EncodeRow(RmFrom(r, key, j))
    decreases TABLE_ROW_SIZE - j
  {
    if j < TABLE_ROW_SIZE {
      KvFile.ReadSlot(r, j);
      if r[j].Entry? {
        if r[j].key == key {
          ClearRow(r, j);
          RmBytesIs(r[j := Empty], key, j + 1);
        } else {
          RmBytesIs(r, key, j + 1);
        }
      }
    }
  }

  // ----- the machine on bytes -----

  datatype FilePc =
    | Outside
    | Entered                       // lock held, row not read
    | Read(buf: seq<byte>)          // lock held, private copy of 1288 bytes
    | Worked(buf: seq<byte>)        // lock held, private copy changed
    | Leaving(reply: Reply)         // lock still held, return value decided

  datatype FileThread = FileThread(todo: seq<Job>, pc: FilePc, done: seq<(Job, Reply)>)

  datatype FileState = FileState(data: seq<byte>, owner: Option<nat>, threads: seq<FileThread>)

  function ByteWork(b: seq<byte>, c: Call): FilePc
    requires |b| == ROW_LEN && !Refused(c)
  {
    match c
    case Set(key, v) =>
      var o := PutBytes(b, key, Cut(v), 0);
      if o.None? then Leaving(FAIL) else Worked(o.value)
    case Get(key, size) =>
      var o := GetBytes(b, key, 0);
      if o.None? then Leaving(FAIL) else Leaving(Reply(0, Take(o.value, size)))
    case Del(key) => Worked(RmBytes(b, key, 0))
  }

  /** Thread i can take a step. */
  ghost predicate FileEnabled(f: FileState, i: nat) {
    && i < |f.threads|
    && f.threads[i].todo != []
    && |f.data| == ROW_LEN * TABLE_COL_SIZE
    && var th := f.threads[i];
       && (th.pc.Outside? ==> f.owner == None || Refused(th.todo[0].call))
       && (th.pc.Read? ==> |th.pc.buf| == ROW_LEN && !Refused(th.todo[0].call))
       && (th.pc.Worked? ==> |th.pc.buf| == ROW_LEN)
  }

  ghost function FileAfter(f: FileState, i: nat): (g: FileState)
    requires FileEnabled(f, i)
  {
    var th := f.threads[i];
    var job := th.todo[0];
    var at := ROW_LEN * RowOf(job.call.key);
    match th.pc
    case Outside =>
      if Refused(job.call) then f.(threads := f.threads[i := FileThread(th.todo[1..], Outside, th.done + [(job, FAIL)])])
      else f.(owner := Some(i), threads := f.threads[i := th.(pc := Entered)])
    case Entered =>
      f.(threads := f.threads[i := th.(pc := if job.io.readOk then Read(f.data[at..at + ROW_LEN]) else Leaving(FAIL))])
    case Read(buf) =>
      f.(threads := f.threads[i := th.(pc := ByteWork(buf, job.call))])
    case Worked(buf) =>
      if job.io.writeOk then f.(data := Splice(f.data, at, buf), threads := f.threads[i := th.(pc := Leaving(OK))])
      else f.(threads := f.threads[i := th.(pc := Leaving(FAIL))])
    case Leaving(reply) =>
      f.(owner := None, threads := f.threads[i := FileThread(th.todo[1..], Outside, th.done + [(job, reply)])])
  }

  ghost predicate FileNext(f: FileState, i: nat, g: FileState) {
    FileEnabled(f, i) && g == FileAfter(f, i)
  }

  ghost predicate FileInitial(f: FileState) {
    && f.owner == None
    && (forall i :: 0 <= i < |f.threads| ==> IsFresh(f.threads[i]))
  }

  ghost predicate IsFresh(th: FileThread) {
    th.pc == Outside && th.done == [] && AreTexts(th.todo)
  }

  /** A run of the threads on the bytes of a file. */
  ghost predicate IsFileExecution(files: seq<FileState>, who: seq<nat>) {
    && |files| == |who| + 1
    && FileInitial(files[0])
    && (forall k :: 0 <= k < |who| ==> FileNext(files[k], who[k], files[k + 1]))
  }

  // ----- every byte step is a row step -----

  ghost predicate PcEncoded(pc: Pc, fpc: FilePc) {
    match pc
    case Idle => fpc == Outside
    case Locked => fpc == Entered
    case Loaded(row) => IsRow(row) && fpc == Read(EncodeRow(row))
    case Changed(row) => IsRow(row) && fpc == Worked(EncodeRow(row))
    case Finished(reply) => fpc == Leaving(reply)
  }

  ghost predicate ThreadEncoded(th: Thread, fth: FileThread) {
    th.todo == fth.todo && th.done == fth.done && PcEncoded(th.pc, fth.pc)
  }

  /** The file is the encoding of the rows, and every buffer that of a thread's copy of its row. */
  ghost predicate Encoded(s: State, f: FileState) {
    && IsTable(s.rows) && f.data == EncodeFile(s.rows)
    && f.owner == s.owner && |f.threads| == |s.threads|
    && forall i :: 0 <= i < |s.threads| ==> ThreadEncoded(s.threads[i], f.threads[i])
  }

  /** Work on the bytes of a row is work on the row. */
  lemma ByteWorkIs(row: Row, c: Call)
    requires IsRow(row) && IsText(c.key) && !Refused(c)
    ensures PcEncoded(Work(row, c), ByteWork(EncodeRow(row), c))
  {
    match c {
      case Set(key, v) =>
        PutBytesIs(row, key, Cut(v), 0);
        KvFile.PutCut(row, key, v);
      case Get(key, _) =>
        GetBytesIs(row, key, 0);
      case Del(key) =>
        RmBytesIs(row, key, 0);
    }
  }

  /** The same threads can go on, and their steps lead to states that encode each other. */
  lemma StepEncoded(s: State, f: FileState, i: nat)
    requires WellFormed(s) && Encoded(s, f)
    requires forall k :: 0 <= k < |s.threads| ==> Consistent(s, k)
    ensures FileEnabled(f, i) <==> Enabled(s, i)
    ensures Enabled(s, i) ==> Encoded(After(s, i), FileAfter(f, i))
  {
    if i < |s.threads| && s.threads[i].todo != [] {
      assert ThreadEncoded(s.threads[i], f.threads[i]) && Consistent(s, i);
      if Enabled(s, i) {
        StepEncodedOnce(s, f, i);
      }
    }
  }

  lemma StepEncodedOnce(s: State, f: FileState, i: nat)
    requires WellFormed(s) && Encoded(s, f) && Enabled(s, i) && FileEnabled(f, i)
    ensures Encoded(After(s, i), FileAfter(f, i))
  {
    var th, u, g := s.threads[i], After(s, i), FileAfter(f, i);
    var job := th.todo[0];
    var at := RowOf(job.call.key);
    assert AreTexts(th.todo) && IsText(job.call.key);
    assert ThreadEncoded(th, f.threads[i]);
    match th.pc {
      case Idle =>
      case Locked =>
        RowOfFile(s.rows, at);
      case Loaded(row) =>
        ByteWorkIs(row, job.call);
      case Changed(row) =>
        SpliceRow(s.rows, at, row);
      case Finished(reply) =>
    }
    assert ThreadEncoded(u.threads[i], g.threads[i]);
    forall k | 0 <= k < |u.threads|
      ensures ThreadEncoded(u.threads[k], g.threads[k])
    {
      assert k != i ==> ThreadEncoded(s.threads[k], f.threads[k]);
    }
  }

  // ----- whole runs -----

  /** The state of rows a run on bytes begins with. */
  function StartOf(f: FileState, t: Table): (s: State)
    ensures |s.threads| == |f.threads|
  {
    State(t, None, seq(|f.threads|, i requires 0 <= i < |f.threads| => Thread(f.threads[i].todo, Idle, [])))
  }

  lemma AllButLastStep(files: seq<FileState>, who: seq<nat>)
    requires IsFileExecution(files, who) && who != []
    ensures var n := |who|;
            IsFileExecution(files[..n], who[..n - 1]) && FileNext(files[n - 1], who[n - 1], files[n])
  {
    var n := |who|;
    forall k | 0 <= k < n - 1
      ensures FileNext(files[..n][k], who[..n - 1][k], files[..n][k + 1])
    {
      assert FileNext(files[k], who[k], files[k + 1]);
    }
  }

  lemma StartEncoded(f: FileState, t: Table)
    requires FileInitial(f) && IsTable(t) && f.data == EncodeFile(t)
    ensures Initial(StartOf(f, t)) && Encoded(StartOf(f, t), f)
  {
    var s := StartOf(f, t);
    forall i | 0 <= i < |s.threads|
      ensures ThreadEncoded(s.threads[i], f.threads[i]) && AreTexts(s.threads[i].todo)
    {
      assert IsFresh(f.threads[i]);
    }
  }

  ghost predicate AllEncoded(states: seq<State>, files: seq<FileState>) {
    |states| == |files| && forall k :: 0 <= k < |states| ==> Encoded(states[k], files[k])
  }

  /** Every run on bytes, begun on the encoding of a table, is the encoding of a run on rows. */
  lemma {:induction false} RunOfRows(files: seq<FileState>, who: seq<nat>, t: Table) returns (states: seq<State>)
    requires IsFileExecution(files, who) && IsTable(t) && files[0].data == EncodeFile(t)
    ensures IsExecution(states, who) && states[0].rows == t
    ensures AllEncoded(states, files)
    decreases |who|
  {
    var n := |who|;
    if n == 0 {
      StartEncoded(files[0], t);
      states := [StartOf(files[0], t)];
    } else {
      AllButLastStep(files, who);
      var before := RunOfRows(files[..n], who[..n - 1], t);
      assert |who[..n - 1]| == n - 1 && files[..n][n - 1] == files[n - 1];
      states := OneMoreEncoded(before, files[..n], who[..n - 1], who[n - 1], files[n]);
      assert who[..n - 1] + [who[n - 1]] == who;
      assert files[..n] + [files[n]] == files;
    }
  }

  lemma OneMoreEncoded(states: seq<State>, files: seq<FileState>, who: seq<nat>, i: nat, g: FileState)
    returns (states': seq<State>)
    requires IsExecution(states, who) && AllEncoded(states, files) && FileNext(files[|who|], i, g)
    ensures IsExecution(states', who + [i]) && states'[0] == states[0]
    ensures AllEncoded(states', files + [g])
  {
    LastIsConsistent(states, who);
    assert Encoded(states[|who|], files[|who|]);
    StepEncoded(states[|who|], files[|who|], i);
    states' := OneMoreStep(states, who, i);
  }

  lemma LastIsConsistent(states: seq<State>, who: seq<nat>)
    requires IsExecution(states, who)
    ensures WellFormed(states[|who|])
    ensures forall k :: 0 <= k < |states[|who|].threads| ==> Consistent(states[|who|], k)
  {
    var logs := Serializable(states, who);
    assert Explains(states[0].rows, logs[|who|], states[|who|]);
  }

  lemma OneMoreStep(states: seq<State>, who: seq<nat>, i: nat) returns (states': seq<State>)
    requires IsExecution(states, who) && WellFormed(states[|who|]) && Enabled(states[|who|], i)
    ensures states' == states + [After(states[|who|], i)]
    ensures IsExecution(states', who + [i])
  {
    states' := states + [After(states[|who|], i)];
  }

  /** The calls of a thread that have taken effect. */
  function FileEffective(th: FileThread): seq<(Job, Reply)> {
    th.done + if th.pc.Leaving? && th.todo != [] then [(th.todo[0], th.pc.reply)] else []
  }

  /** In every state of every run the bytes of the file are those of a sequential run of the calls, with the same replies
      and the same order in each thread; the order only ever grows at its end. */
  lemma FileSerializable(files: seq<FileState>, who: seq<nat>, t: Table) returns (logs: seq<seq<Effect>>)
    requires IsFileExecution(files, who) && IsTable(t) && files[0].data == EncodeFile(t)
    ensures |logs| == |files|
    ensures forall k :: 0 <= k < |files| ==> FileExplained(t, logs[k], files[k])
    ensures forall j, k :: 0 <= j <= k < |logs| ==> logs[j] <= logs[k]
  {
    var states := RunOfRows(files, who, t);
    logs := Serializable(states, who);
    forall k | 0 <= k < |files|
      ensures FileExplained(t, logs[k], files[k])
    {
      assert Explains(t, logs[k], states[k]) && Encoded(states[k], files[k]);
      ExplainedInBytes(t, logs[k], states[k], files[k]);
    }
  }

  ghost predicate FileExplained(t: Table, log: seq<Effect>, f: FileState)
    requires IsTable(t)
  {
    && AreTexts(Jobs(log))
    && f.data == EncodeFile(Run(t, Jobs(log)).0)
    && Replies(log) == Run(t, Jobs(log)).1
    && forall i :: 0 <= i < |f.threads| ==> Of(log, i) == FileEffective(f.threads[i])
  }

  lemma ExplainedInBytes(t: Table, log: seq<Effect>, s: State, f: FileState)
    requires IsTable(t) && Explains(t, log, s) && Encoded(s, f)
    ensures FileExplained(t, log, f)
  {
    forall i | 0 <= i < |f.threads|
      ensures Of(log, i) == FileEffective(f.threads[i])
    {
      assert Consistent(s, i) && ThreadEncoded(s.threads[i], f.threads[i]);
    }
  }

  /** No run on bytes gets stuck, and no two threads are inside their calls. */
  lemma FileGoesOn(files: seq<FileState>, who: seq<nat>, t: Table, i: nat, k: nat)
    requires IsFileExecution(files, who) && IsTable(t) && files[0].data == EncodeFile(t)
    requires i < |files[|who|].threads| && k < |files[|who|].threads|
    ensures files[|who|].threads[k].todo != [] ==> exists j :: FileEnabled(files[|who|], j)
    ensures i != k ==> files[|who|].threads[i].pc.Outside? || files[|who|].threads[k].pc.Outside?
  {
    var states := RunOfRows(files, who, t);
    var s, f := states[|who|], files[|who|];
    assert Encoded(s, f);
    assert ThreadEncoded(s.threads[i], f.threads[i]) && ThreadEncoded(s.threads[k], f.threads[k]);
    if i != k {
      MutualExclusion(states, who, |who|, i, k);
    }
    if f.threads[k].todo != [] {
      NeverStuck(states, who, k);
      var j :| Enabled(s, j);
      var logs := Serializable(states, who);
      assert Explains(t, logs[|who|], s);
      StepEncoded(s, f, j);
    }
  }

  /** When the lock is free, every call that took effect has returned, and the file is that of a sequential run of them. */
  lemma FileQuiescent(files: seq<FileState>, who: seq<nat>, t: Table) returns (log: seq<Effect>)
    requires IsFileExecution(files, who) && IsTable(t) && files[0].data == EncodeFile(t)
    requires files[|who|].owner == None
    ensures AreTexts(Jobs(log))
    ensures files[|who|].data == EncodeFile(Run(t, Jobs(log)).0) && Replies(log) == Run(t, Jobs(log)).1
    ensures forall i :: 0 <= i < |files[|who|].threads| ==> Of(log, i) == files[|who|].threads[i].done
  {
    var states := RunOfRows(files, who, t);
    log := QuiescentIsSequential(states, who);
    assert Encoded(states[|who|], files[|who|]);
    forall i | 0 <= i < |files[|who|].threads|
      ensures Of(log, i) == files[|who|].threads[i].done
    {
      assert ThreadEncoded(states[|who|].threads[i], files[|who|].threads[i]);
    }
  }

  lemma {:induction false} EmptyRowsAreZeros(n: nat)
    ensures EncodeFile(seq(n, _ => EmptyRow())) == Zeros(ROW_LEN * n)
  {
    if n > 0 {
      EmptyRowsAreZeros(n - 1);
      KvFile.AppendRow(seq(n - 1, _ => EmptyRow()), EmptyRow());
      KvFile.EmptyRowIsZeros();
      assert seq(n, _ => EmptyRow()) == seq(n - 1, _ => EmptyRow()) + [EmptyRow()];
    }
  }

  /** Threads that set and get keys of at most 127 bytes, from a file of zeros, see one map, and leave it in the file. */
  lemma ThreadsShareOneFile(files: seq<FileState>, who: seq<nat>) returns (log: seq<Effect>, u: Table)
    requires IsFileExecution(files, who) && files[0].data == Zeros(ROW_LEN * TABLE_COL_SIZE)
    requires forall i, job :: 0 <= i < |files[0].threads| && job in files[0].threads[i].todo ==>
               IsKey(job.call.key) && !job.call.Del?
    requires files[|who|].owner == None
    ensures Replies(log) == MapRun(map[], Jobs(log)).1
    ensures Agrees(u, MapRun(map[], Jobs(log)).0) && files[|who|].data == EncodeFile(u)
    ensures forall i :: 0 <= i < |files[|who|].threads| ==> Of(log, i) == files[|who|].threads[i].done
  {
    EmptyRowsAreZeros(TABLE_COL_SIZE);
    var states := RunOfRows(files, who, EmptyTable());
    assert Encoded(states[0], files[0]) && Encoded(states[|who|], files[|who|]);
    forall i, job | 0 <= i < |states[0].threads| && job in states[0].threads[i].todo
      ensures IsKey(job.call.key) && !job.call.Del?
    {
      assert ThreadEncoded(states[0].threads[i], files[0].threads[i]);
    }
    log := ThreadsShareOneMap(states, who);
    u := states[|who|].rows;
    forall i | 0 <= i < |files[|who|].threads|
      ensures Of(log, i) == files[|who|].threads[i].done
    {
      assert ThreadEncoded(states[|who|].threads[i], files[|who|].threads[i]);
    }
  }
}
