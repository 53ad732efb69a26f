/** Threads that share one key-value file: every call locks, reads its row, changes the copy, writes the row back and
    unlocks, one step at a time, in any interleaving. */
module KvConcurrent {
  import opened Words
  import opened CStrings
  import opened KvLayout
  import opened KvTable
  import opened KvMap

  // ----- the machine -----

  /** Where a thread is inside the call at the head of its list. */
  datatype Pc =
    | Idle                      // not in a call, or before the lock
    | Locked                    // lock held, row not read
    | Loaded(row: Row)          // lock held, private copy of the row
    | Changed(row: Row)         // lock held, private copy changed
    | Finished(reply: Reply)    // lock still held, return value decided

  /** A thread: the calls it has yet to return from, where it is in the first of them, and the calls it returned from
      with their replies. */
  datatype Thread = Thread(todo: seq<Job>, pc: Pc, done: seq<(Job, Reply)>)

  /** The row of the file under each index, the mutex, the threads. */
  datatype State = State(rows: Table, owner: Option<nat>, threads: seq<Thread>)

  ghost predicate WellFormed(s: State) {
    && IsTable(s.rows)
    && (forall i :: 0 <= i < |s.threads| ==> AreTexts(s.threads[i].todo))
  }

  /** The parameter checks made before the lock is taken. */
  predicate Refused(c: Call) {
    (c.Set? && c.value == []) || (c.Get? && c.size <= 0)
  }

  /** What the thread does with its copy of the row. */
  function Work(row: Row, c: Call): (pc: Pc)
    requires IsRow(row) && IsText(c.key) && !Refused(c)
    ensures pc.Changed? || pc.Finished?
    ensures pc.Changed? ==> IsRow(pc.row)
  {
    match c
    case Set(key, v) =>
      var o := PutRow(row, key, v);
      if o.None? then Finished(FAIL) else Changed(o.value)
    case Get(key, size) =>
      var o := GetRow(row, key);
      if o.None? then Finished(FAIL) else Finished(Reply(0, Take(o.value, size)))
    case Del(key) => Changed(RmRow(row, key))
  }

  /** Thread i has a call left, and could take a step if it need not wait for the lock. */
  ghost predicate HasStep(s: State, i: nat)
    requires WellFormed(s)
  {
    && i < |s.threads|
    && s.threads[i].todo != []
    && (s.threads[i].pc.Loaded? ==> IsRow(s.threads[i].pc.row) && !Refused(s.threads[i].todo[0].call))
  }

  /** Thread i can take a step: it need not wait for the lock. */
  ghost predicate Enabled(s: State, i: nat)
    requires WellFormed(s)
  {
    HasStep(s, i) && (s.threads[i].pc.Idle? ==> s.owner == None || Refused(s.threads[i].todo[0].call))
  }

  /** The state after that step. */
  ghost function After(s: State, i: nat): (u: State)
    requires WellFormed(s) && HasStep(s, i)
  {
    var th := s.threads[i];
    var job := th.todo[0];
    var at := RowOf(job.call.key);
    match th.pc
    case Idle =>
      if Refused(job.call) then s.(threads := s.threads[i := Thread(th.todo[1..], Idle, th.done + [(job, FAIL)])])
      else s.(owner := Some(i), threads := s.threads[i := th.(pc := Locked)])
    case Locked =>
      s.(threads := s.threads[i := th.(pc := if job.io.readOk then Loaded(s.rows[at]) else Finished(FAIL))])
    case Loaded(row) =>
      assert IsText(job.call.key);
      s.(threads := s.threads[i := th.(pc := Work(row, job.call))])
    case Changed(row) =>
      if job.io.writeOk then s.(rows := s.rows[at := row], threads := s.threads[i := th.(pc := Finished(OK))])
      else s.(threads := s.threads[i := th.(pc := Finished(FAIL))])
    case Finished(reply) =>
      s.(owner := None, threads := s.threads[i := Thread(th.todo[1..], Idle, th.done + [(job, reply)])])
  }

  ghost predicate Next(s: State, i: nat, u: State)
    requires WellFormed(s)
  {
    Enabled(s, i) && u == After(s, i)
  }

  ghost predicate Initial(s: State) {
    && WellFormed(s)
    && s.owner == None
    && (forall i :: 0 <= i < |s.threads| ==> s.threads[i].pc == Idle && s.threads[i].done == [])
  }

  // ----- the sequential order -----

  /** A call that has taken effect: the thread, the call, its reply. */
  datatype Effect = Effect(thread: nat, job: Job, reply: Reply)

  function Jobs(log: seq<Effect>): (j: seq<Job>)
    ensures |j| == |log|
  {
    seq(|log|, k requires 0 <= k < |log| => log[k].job)
  }

  function Replies(log: seq<Effect>): (r: seq<Reply>)
    ensures |r| == |log|
  {
    seq(|log|, k requires 0 <= k < |log| => log[k].reply)
  }

  /** The calls of thread i in the log, in order. */
  function Of(log: seq<Effect>, i: nat): seq<(Job, Reply)> {
    if log == [] then []
    else
      var e := log[|log| - 1];
      Of(log[..|log| - 1], i) + if e.thread == i then [(e.job, e.reply)] else []
  }

  /** The calls of a thread that have taken effect: those it returned from, and one whose return value is decided. */
  function Effective(th: Thread): seq<(Job, Reply)> {
    th.done + if th.pc.Finished? && th.todo != [] then [(th.todo[0], th.pc.reply)] else []
  }

  /** The log explains the state: run one after the other from t, its calls give its replies and the rows as they are,
      and each thread finds its own calls in it, in its own order. */
  ghost predicate Explains(t: Table, log: seq<Effect>, s: State)
    requires IsTable(t)
  {
    && AreTexts(Jobs(log))
    && Run(t, Jobs(log)) == (s.rows, Replies(log))
    && (forall k :: 0 <= k < |log| ==> log[k].thread < |s.threads|)
    && (s.owner.Some? ==> s.owner.value < |s.threads|)
    && (forall i :: 0 <= i < |s.threads| ==> Consistent(s, i) && Of(log, i) == Effective(s.threads[i]))
  }

  /** Thread i holds the lock exactly while it is in the middle of a call, and its copy of the row is up to date. */
  ghost predicate Consistent(s: State, i: nat)
    requires i < |s.threads|
  {
    var th := s.threads[i];
    && (th.pc.Idle? <==> s.owner != Some(i))
    && (!th.pc.Idle? ==> th.todo != [] && !Refused(th.todo[0].call))
    && (th.pc.Loaded? ==> RowOf(th.todo[0].call.key) < |s.rows| && th.pc.row == s.rows[RowOf(th.todo[0].call.key)]
                          && th.todo[0].io.readOk)
    && (th.pc.Changed? ==> RowOf(th.todo[0].call.key) < |s.rows| && IsRow(s.rows[RowOf(th.todo[0].call.key)])
                           && IsText(th.todo[0].call.key) && th.todo[0].io.readOk
                           && th.pc == Work(s.rows[RowOf(th.todo[0].call.key)], th.todo[0].call))
  }

  /** The order in which calls take effect, extended by this step: nothing, or one call of thread i. */
  function Extended(log: seq<Effect>, s: State, i: nat, u: State): (l: seq<Effect>)
    requires i < |s.threads| == |u.threads| && s.threads[i].todo != []
    ensures l == log || (|l| == |log| + 1 && l[..|log|] == log && l[|log|].thread == i)
  {
    var th, job := s.threads[i], s.threads[i].todo[0];
    if th.pc.Idle? && Refused(job.call) then log + [Effect(i, job, FAIL)]
    else if !th.pc.Finished? && u.threads[i].pc.Finished? then log + [Effect(i, job, u.threads[i].pc.reply)]
    else log
  }

  // ----- one step keeps the explanation -----

  lemma {:induction false} RunAppend(t: Table, log: seq<Effect>, e: Effect)
    requires IsTable(t) && AreTexts(Jobs(log)) && IsText(e.job.call.key)
    ensures AreTexts(Jobs(log + [e]))
    ensures Run(t, Jobs(log + [e])) ==
            var (u, r) := Run(t, Jobs(log));
            var (w, reply) := Step(u, e.job.call, e.job.io);
            (w, r + [reply])
    ensures Replies(log + [e]) == Replies(log) + [e.reply]
  {
    assert Jobs(log + [e])[..|log|] == Jobs(log);
  }

  lemma {:induction false} OfAppend(log: seq<Effect>, e: Effect, i: nat)
    ensures Of(log + [e], i) == Of(log, i) + if e.thread == i then [(e.job, e.reply)] else []
  {
    assert (log + [e])[..|log|] == log;
  }

  /** A step whose call takes effect now. */
  lemma StepTakesEffect(t: Table, log: seq<Effect>, s: State, i: nat, u: State, reply: Reply)
    requires IsTable(t) && WellFormed(s) && Explains(t, log, s)
    requires i < |s.threads| == |u.threads| && s.threads[i].todo != []
    requires forall k :: 0 <= k < |s.threads| && k != i ==> u.threads[k] == s.threads[k]
    requires Step(s.rows, s.threads[i].todo[0].call, s.threads[i].todo[0].io) == (u.rows, reply)
    requires forall k :: 0 <= k < |u.threads| ==> Consistent(u, k)
    requires u.owner.Some? ==> u.owner.value < |u.threads|
    requires Effective(u.threads[i]) == Effective(s.threads[i]) + [(s.threads[i].todo[0], reply)]
    ensures Explains(t, log + [Effect(i, s.threads[i].todo[0], reply)], u)
  {
    var e := Effect(i, s.threads[i].todo[0], reply);
    RunAppend(t, log, e);
    forall k | 0 <= k < |u.threads|
      ensures Of(log + [e], k) == Effective(u.threads[k])
    {
      OfAppend(log, e, k);
    }
  }

  /** The pieces of a call, put together, are the call. */
  lemma WorkIsStep(t: Table, c: Call, io: Io)
    requires IsTable(t) && IsText(c.key)
    ensures Refused(c) || !io.readOk ==> Step(t, c, io) == (t, FAIL)
    ensures !Refused(c) && io.readOk ==>
              match Work(t[RowOf(c.key)], c)
              case Finished(reply) => Step(t, c, io) == (t, reply)
              case Changed(row) => Step(t, c, io) == if io.writeOk then (t[RowOf(c.key) := row], OK) else (t, FAIL)
              case _ => false
  {
  }

  /** Every step of every thread keeps the state explained, by the same log or the log and one call of that thread. */
  lemma StepExplained(t: Table, log: seq<Effect>, s: State, i: nat, u: State)
    requires IsTable(t) && WellFormed(s) && Explains(t, log, s) && Next(s, i, u)
    ensures WellFormed(u)
    ensures Explains(t, Extended(log, s, i, u), u)
  {
    var th, job := s.threads[i], s.threads[i].todo[0];
    assert IsText(job.call.key) && Consistent(s, i);
    StepConsistent(s, i, u);
    WorkIsStep(s.rows, job.call, job.io);
    if Extended(log, s, i, u) == log {
      StepSilent(t, log, s, i, u);
    } else {
      StepTakesEffect(t, log, s, i, u, if th.pc.Idle? then FAIL else u.threads[i].pc.reply);
    }
  }

  /** A step whose call does not take effect now. */
  lemma StepSilent(t: Table, log: seq<Effect>, s: State, i: nat, u: State)
    requires IsTable(t) && WellFormed(s) && Explains(t, log, s)
    requires i < |s.threads| == |u.threads| && u.rows == s.rows
    requires forall k :: 0 <= k < |s.threads| && k != i ==> u.threads[k] == s.threads[k]
    requires forall k :: 0 <= k < |u.threads| ==> Consistent(u, k)
    requires u.owner.Some? ==> u.owner.value < |u.threads|
    requires Effective(u.threads[i]) == Effective(s.threads[i])
    ensures Explains(t, log, u)
  {
    forall k | 0 <= k < |u.threads|
      ensures Of(log, k) == Effective(u.threads[k])
    {
      assert Consistent(s, k);
    }
  }

  /** As long as a call is left, some thread can take a step: the lock is never left behind. */
  lemma SomeoneCanStep(t: Table, log: seq<Effect>, s: State, k: nat)
    requires IsTable(t) && WellFormed(s) && Explains(t, log, s) && k < |s.threads| && s.threads[k].todo != []
    ensures exists i :: Enabled(s, i)
  {
    var i := if s.owner.Some? then s.owner.value else k;
    assert Consistent(s, i);
    assert AreTexts(s.threads[i].todo) && IsText(s.threads[i].todo[0].call.key);
    assert Enabled(s, i);
  }

  lemma StepConsistent(s: State, i: nat, u: State)
    requires WellFormed(s) && Next(s, i, u)
    requires forall k :: 0 <= k < |s.threads| ==> Consistent(s, k)
    ensures WellFormed(u) && |u.threads| == |s.threads|
    ensures forall k :: 0 <= k < |u.threads| ==> Consistent(u, k)
    ensures forall k :: 0 <= k < |s.threads| && k != i ==> u.threads[k] == s.threads[k]
  {
    var th, job := s.threads[i], s.threads[i].todo[0];
    assert IsText(job.call.key) && Consistent(s, i);
    forall k | 0 <= k < |u.threads|
      ensures AreTexts(u.threads[k].todo)
    {
      assert AreTexts(s.threads[k].todo);
    }
    forall k | 0 <= k < |u.threads|
      ensures Consistent(u, k)
    {
      assert Consistent(s, k);
    }
  }

  // ----- whole runs -----

  /** A run: each state follows from the one before by a step of the thread named beside it. */
  ghost predicate IsExecution(states: seq<State>, who: seq<nat>) {
    && |states| == |who| + 1
    && Initial(states[0])
    && (forall k :: 0 <= k < |who| ==> WellFormed(states[k]) && Next(states[k], who[k], states[k + 1]))
  }

  lemma InitialExplained(s: State)
    requires Initial(s)
    ensures Explains(s.rows, [], s)
  {
  }

  /** Every interleaving is equivalent to a sequential order of the calls.  The order is found step by step and only ever
      grows at its end: a call that has returned comes before every call that has not yet taken effect, so no update is
      lost and the order is the real-time order. */
  lemma {:induction false} Serializable(states: seq<State>, who: seq<nat>) returns (logs: seq<seq<Effect>>)
    requires IsExecution(states, who)
    ensures |logs| == |states|
    ensures forall k :: 0 <= k < |states| ==> WellFormed(states[k]) && Explains(states[0].rows, logs[k], states[k])
    ensures forall j, k :: 0 <= j <= k < |logs| ==> logs[j] <= logs[k]
    decreases |who|
  {
    var n := |who|;
    if n == 0 {
      InitialExplained(states[0]);
      logs := [[]];
    } else {
      var before := Serializable(states[..n], who[..n - 1]);
      var last := Extended(before[n - 1], states[n - 1], who[n - 1], states[n]);
      StepExplained(states[0].rows, before[n - 1], states[n - 1], who[n - 1], states[n]);
      logs := before + [last];
    }
  }

  /** In no state of any run are two threads inside their calls. */
  lemma MutualExclusion(states: seq<State>, who: seq<nat>, n: nat, i: nat, k: nat)
    requires IsExecution(states, who) && n < |states|
    requires i < |states[n].threads| && k < |states[n].threads| && i != k
    ensures states[n].threads[i].pc.Idle? || states[n].threads[k].pc.Idle?
  {
    var logs := Serializable(states, who);
    assert Consistent(states[n], i) && Consistent(states[n], k);
  }

  /** No run gets stuck: while a call is left, some thread can go on. */
  lemma NeverStuck(states: seq<State>, who: seq<nat>, k: nat)
    requires IsExecution(states, who) && k < |states[|who|].threads| && states[|who|].threads[k].todo != []
    ensures WellFormed(states[|who|]) && exists i :: Enabled(states[|who|], i)
  {
    var logs := Serializable(states, who);
    SomeoneCanStep(states[0].rows, logs[|who|], states[|who|], k);
  }

  /** Once every thread is out of its calls, the file is what the sequential order makes of it, and the replies of each
      thread are those it got there. */
  lemma QuiescentIsSequential(states: seq<State>, who: seq<nat>) returns (log: seq<Effect>)
    requires IsExecution(states, who)
    requires states[|who|].owner == None
    ensures AreTexts(Jobs(log)) && IsTable(states[0].rows)
    ensures Run(states[0].rows, Jobs(log)) == (states[|who|].rows, Replies(log))
    ensures forall i :: 0 <= i < |states[|who|].threads| ==> Of(log, i) == states[|who|].threads[i].done
  {
    var logs := Serializable(states, who);
    log := logs[|who|];
    var s := states[|who|];
    forall i | 0 <= i < |s.threads|
      ensures Of(log, i) == s.threads[i].done
    {
      assert Consistent(s, i);
    }
  }

  /** The calls of a thread, those it returned from and those it has not. */
  function Program(th: Thread): (p: seq<Job>)
    ensures |p| == |th.done| + |th.todo|
  {
    seq(|th.done|, k requires 0 <= k < |th.done| => th.done[k].0) + th.todo
  }

  lemma StepProgram(s: State, i: nat, u: State, k: nat)
    requires WellFormed(s) && Next(s, i, u) && k < |s.threads|
    ensures |u.threads| == |s.threads| && Program(u.threads[k]) == Program(s.threads[k])
  {
    var th := s.threads[i];
    if k == i && |u.threads[i].todo| < |th.todo| {
      assert th.todo == [th.todo[0]] + th.todo[1..];
    }
  }

  /** No call is dropped, repeated or reordered within its thread. */
  lemma {:induction false} ProgramKept(states: seq<State>, who: seq<nat>, k: nat)
    requires IsExecution(states, who) && k < |states[0].threads|
    ensures |states[|who|].threads| == |states[0].threads|
    ensures Program(states[|who|].threads[k]) == states[0].threads[k].todo
    decreases |who|
  {
    var n := |who|;
    if n > 0 {
      ProgramKept(states[..n], who[..n - 1], k);
      StepProgram(states[n - 1], who[n - 1], states[n], k);
    } else {
      assert Program(states[0].threads[k]) == states[0].threads[k].todo;
    }
  }

  lemma {:induction false} LoggedIsEffective(log: seq<Effect>, k: nat)
    requires k < |log|
    ensures (log[k].job, log[k].reply) in Of(log, log[k].thread)
    decreases |log|
  {
    var n := |log| - 1;
    if k < n {
      LoggedIsEffective(log[..n], k);
    }
  }

  lemma LoggedIsInProgram(t: Table, log: seq<Effect>, s: State, k: nat)
    requires IsTable(t) && Explains(t, log, s) && k < |log|
    ensures log[k].job in Program(s.threads[log[k].thread])
  {
    LoggedIsEffective(log, k);
    var th := s.threads[log[k].thread];
    assert Consistent(s, log[k].thread);
    var x := (log[k].job, log[k].reply);
    if x in th.done {
      var j :| 0 <= j < |th.done| && th.done[j] == x;
      assert Program(th)[j] == log[k].job;
    } else {
      assert Program(th)[|th.done|] == log[k].job;
    }
  }

  /** From the created file, threads that only set and get keys of at most 127 bytes see one map. */
  lemma ThreadsShareOneMap(states: seq<State>, who: seq<nat>) returns (log: seq<Effect>)
    requires IsExecution(states, who) && states[0].rows == EmptyTable()
    requires forall i, job :: 0 <= i < |states[0].threads| && job in states[0].threads[i].todo ==>
               IsKey(job.call.key) && !job.call.Del?
    requires states[|who|].owner == None
    ensures Replies(log) == MapRun(map[], Jobs(log)).1
    ensures Agrees(states[|who|].rows, MapRun(map[], Jobs(log)).0)
    ensures forall i :: 0 <= i < |states[|who|].threads| ==> Of(log, i) == states[|who|].threads[i].done
  {
    var s := states[|who|];
    var logs := Serializable(states, who);
    log := logs[|who|];
    forall k | 0 <= k < |log|
      ensures IsKey(Jobs(log)[k].call.key) && !Jobs(log)[k].call.Del?
    {
      LoggedIsInProgram(EmptyTable(), log, s, k);
      ThreadCount(states, who);
      ProgramKept(states, who, log[k].thread);
    }
    SetGetRunAgrees(Jobs(log));
    forall i | 0 <= i < |s.threads|
      ensures Of(log, i) == s.threads[i].done
    {
      assert Consistent(s, i);
    }
  }

  lemma {:induction false} ThreadCount(states: seq<State>, who: seq<nat>)
    requires IsExecution(states, who)
    ensures |states[|who|].threads| == |states[0].threads|
    decreases |who|
  {
    var n := |who|;
    if n > 0 {
      ThreadCount(states[..n], who[..n - 1]);
    }
  }

  // ----- why the lock is needed -----

  /** A step of thread i, which does not wait for the lock. */
  ghost predicate Goes(s: State, i: nat, u: State) {
    WellFormed(s) && HasStep(s, i) && u == After(s, i)
  }

  /** A run of the same threads in which nobody waits for the lock. */
  ghost predicate IsUnlockedExecution(states: seq<State>, who: seq<nat>) {
    && |states| == |who| + 1
    && Initial(states[0])
    && (forall k :: 0 <= k < |who| ==> Goes(states[k], who[k], states[k + 1]))
  }

  function SetJob(key: seq<byte>, v: seq<byte>): Job {
    Job(Set(key, v), Io(true, true))
  }

  ghost predicate IsSet(j: Job) {
    j.call.Set? && IsKey(j.call.key) && j.call.value != [] && j.io == Io(true, true)
  }

  /** A thread in the middle of its only call. */
  function At(job: Job, pc: Pc): Thread {
    Thread([job], pc, [])
  }

  function Returned(job: Job): Thread {
    Thread([], Idle, [(job, OK)])
  }

  function Two(rows: Table, owner: Option<nat>, x: Thread, y: Thread): State {
    State(rows, owner, [x, y])
  }

  /** The steps of the two threads, in turn: both enter and read the row, both change their copies, both write them
      back, both return. */

  lemma BothRead(t: Table, a: Job, b: Job)
    requires IsTable(t) && IsSet(a) && IsSet(b) && RowOf(b.call.key) == RowOf(a.call.key)
    ensures var r := t[RowOf(a.call.key)];
            && Goes(Two(t, None, At(a, Idle), At(b, Idle)), 0, Two(t, Some(0), At(a, Locked), At(b, Idle)))
            && Goes(Two(t, Some(0), At(a, Locked), At(b, Idle)), 1, Two(t, Some(1), At(a, Locked), At(b, Locked)))
            && Goes(Two(t, Some(1), At(a, Locked), At(b, Locked)), 0, Two(t, Some(1), At(a, Loaded(r)), At(b, Locked)))
            && Goes(Two(t, Some(1), At(a, Loaded(r)), At(b, Locked)), 1, Two(t, Some(1), At(a, Loaded(r)), At(b, Loaded(r))))
  {
    assert IsText(a.call.key) && IsText(b.call.key);
  }

  lemma BothChange(t: Table, a: Job, b: Job, r: Row, w1: Row, w2: Row)
    requires IsTable(t) && IsSet(a) && IsSet(b) && IsRow(r)
    requires PutRow(r, a.call.key, a.call.value) == Some(w1) && PutRow(r, b.call.key, b.call.value) == Some(w2)
    ensures Goes(Two(t, Some(1), At(a, Loaded(r)), At(b, Loaded(r))), 0, Two(t, Some(1), At(a, Changed(w1)), At(b, Loaded(r))))
    ensures Goes(Two(t, Some(1), At(a, Changed(w1)), At(b, Loaded(r))), 1, Two(t, Some(1), At(a, Changed(w1)), At(b, Changed(w2))))
  {
    assert IsText(a.call.key) && IsText(b.call.key);
  }

  lemma BothWrite(t: Table, a: Job, b: Job, w1: Row, w2: Row)
    requires IsTable(t) && IsSet(a) && IsSet(b) && RowOf(b.call.key) == RowOf(a.call.key) && IsRow(w1)
    ensures var i := RowOf(a.call.key);
            && Goes(Two(t, Some(1), At(a, Changed(w1)), At(b, Changed(w2))), 0,
                    Two(t[i := w1], Some(1), At(a, Finished(OK)), At(b, Changed(w2))))
            && Goes(Two(t[i := w1], Some(1), At(a, Finished(OK)), At(b, Changed(w2))), 1,
                    Two(t[i := w2], Some(1), At(a, Finished(OK)), At(b, Finished(OK))))
  {
    assert IsText(a.call.key) && IsText(b.call.key);
    var i := RowOf(a.call.key);
    assert t[i := w1][i := w2] == t[i := w2];
  }

  lemma BothReturn(t: Table, a: Job, b: Job)
    requires IsTable(t) && IsSet(a) && IsSet(b)
    ensures Goes(Two(t, Some(1), At(a, Finished(OK)), At(b, Finished(OK))), 0, Two(t, None, Returned(a), At(b, Finished(OK))))
    ensures Goes(Two(t, None, Returned(a), At(b, Finished(OK))), 1, Two(t, None, Returned(a), Returned(b)))
  {
    assert IsText(a.call.key) && IsText(b.call.key);
    assert At(a, Finished(OK)).todo[1..] == [] == At(b, Finished(OK)).todo[1..];
    assert [] + [(a, OK)] == [(a, OK)] && [] + [(b, OK)] == [(b, OK)];
  }

  /** A run goes on by a step of the first thread and one of the second. */
  lemma OneEach(states: seq<State>, who: seq<nat>, u: State, v: State) returns (states': seq<State>, who': seq<nat>)
    requires IsUnlockedExecution(states, who) && Goes(states[|who|], 0, u) && Goes(u, 1, v)
    ensures IsUnlockedExecution(states', who') && states'[0] == states[0] && states'[|who'|] == v
  {
    states', who' := states + [u, v], who + [0, 1];
    forall k | 0 <= k < |who'|
      ensures Goes(states'[k], who'[k], states'[k + 1])
    {
    }
  }

  lemma BothTogether(t: Table, a: Job, b: Job, w1: Row, w2: Row) returns (states: seq<State>, who: seq<nat>)
    requires IsTable(t) && IsSet(a) && IsSet(b) && RowOf(b.call.key) == RowOf(a.call.key)
    requires PutRow(t[RowOf(a.call.key)], a.call.key, a.call.value) == Some(w1)
    requires PutRow(t[RowOf(a.call.key)], b.call.key, b.call.value) == Some(w2)
    ensures IsUnlockedExecution(states, who)
    ensures states[0] == Two(t, None, At(a, Idle), At(b, Idle))
    ensures states[|who|] == Two(t[RowOf(a.call.key) := w2], None, Returned(a), Returned(b))
  {
    var i, r := RowOf(a.call.key), t[RowOf(a.call.key)];
    BothRead(t, a, b);
    BothChange(t, a, b, r, w1, w2);
    BothWrite(t, a, b, w1, w2);
    BothReturn(t[i := w2], a, b);
    states, who := [Two(t, None, At(a, Idle), At(b, Idle))], [];
    states, who := OneEach(states, who, Two(t, Some(0), At(a, Locked), At(b, Idle)), Two(t, Some(1), At(a, Locked), At(b, Locked)));
    states, who := OneEach(states, who, Two(t, Some(1), At(a, Loaded(r)), At(b, Locked)),
                           Two(t, Some(1), At(a, Loaded(r)), At(b, Loaded(r))));
    states, who := OneEach(states, who, Two(t, Some(1), At(a, Changed(w1)), At(b, Loaded(r))),
                           Two(t, Some(1), At(a, Changed(w1)), At(b, Changed(w2))));
    states, who := OneEach(states, who, Two(t[i := w1], Some(1), At(a, Finished(OK)), At(b, Changed(w2))),
                           Two(t[i := w2], Some(1), At(a, Finished(OK)), At(b, Finished(OK))));
    states, who := OneEach(states, who, Two(t[i := w2], None, Returned(a), At(b, Finished(OK))),
                           Two(t[i := w2], None, Returned(a), Returned(b)));
  }

  /** Two threads set different keys of one row in the created file, both reading the row before either writes it.
      Both calls answer 0, and one of the keys is gone; after the two calls in either order both keys are found. */
  lemma LostUpdateWithoutLock(k1: seq<byte>, v1: seq<byte>, k2: seq<byte>, v2: seq<byte>)
    returns (states: seq<State>, who: seq<nat>)
    requires IsKey(k1) && IsKey(k2) && k1 != k2 && RowOf(k1) == RowOf(k2) && v1 != [] && v2 != []
    ensures IsUnlockedExecution(states, who)
    ensures var a, b := SetJob(k1, v1), SetJob(k2, v2);
            var s, u := states[0], states[|who|];
            && s.rows == EmptyTable() && s.threads == [At(a, Idle), At(b, Idle)]
            && u.threads == [Returned(a), Returned(b)] && IsTable(u.rows)
            && Lookup(u.rows, k1) == None && Lookup(u.rows, k2) == Some(Cut(v2))
            && AreTexts([a, b]) && AreTexts([b, a])
            && Lookup(Run(s.rows, [a, b]).0, k1) == Lookup(Run(s.rows, [b, a]).0, k1) == Some(Cut(v1))
            && Lookup(Run(s.rows, [a, b]).0, k2) == Lookup(Run(s.rows, [b, a]).0, k2) == Some(Cut(v2))
  {
    var a, b := SetJob(k1, v1), SetJob(k2, v2);
    var i, t := RowOf(k1), EmptyTable();
    var r := EmptyRow();
    var w1: Row, w2: Row := [Entry(k1, Cut(v1)), Empty], [Entry(k2, Cut(v2)), Empty];
    OnlyKey(k1, v1, k2);
    OnlyKey(k2, v2, k1);
    states, who := BothTogether(t, a, b, w1, w2);
    SetBoth(k1, v1, k2, v2);
    SetBoth(k2, v2, k1, v1);
  }

  /** One Set in an empty row. */
  lemma OnlyKey(key: seq<byte>, v: seq<byte>, other: seq<byte>)
    requires IsKey(key) && v != [] && other != key
    ensures var w: Row := [Entry(key, Cut(v)), Empty];
            IsRow(w) && PutRow(EmptyRow(), key, v) == Some(w)
            && GetRow(w, key) == Some(Cut(v)) && GetRow(w, other) == None
  {
    var w: Row := [Entry(key, Cut(v)), Empty];
    assert Probe(EmptyRow(), key, 0) == 0;
    assert EmptyRow()[0 := w[0]] == w;
    assert Probe(w, key, 0) == 0;
    assert Probe(w, other, 0) == Probe(w, other, 1) == 1;
  }

  /** Two Sets of different keys of one row in the created file, one after the other. */
  lemma SetBoth(k1: seq<byte>, v1: seq<byte>, k2: seq<byte>, v2: seq<byte>)
    requires IsKey(k1) && IsKey(k2) && k1 != k2 && RowOf(k1) == RowOf(k2) && v1 != [] && v2 != []
    ensures var jobs := [SetJob(k1, v1), SetJob(k2, v2)];
            && AreTexts(jobs)
            && Lookup(Run(EmptyTable(), jobs).0, k1) == Some(Cut(v1))
            && Lookup(Run(EmptyTable(), jobs).0, k2) == Some(Cut(v2))
  {
    var jobs, i := [SetJob(k1, v1), SetJob(k2, v2)], RowOf(k1);
    var w: Row, q: Row := [Entry(k1, Cut(v1)), Empty], [Entry(k1, Cut(v1)), Entry(k2, Cut(v2))];
    OnlyKey(k1, v1, k2);
    assert Probe(w, k2, 0) == Probe(w, k2, 1) == 1;
    assert w[1 := q[1]] == q;
    assert jobs[..1] == [jobs[0]] && jobs[..1][..0] == [];
    assert Run(EmptyTable(), jobs[..1][..0]).0 == EmptyTable();
    assert Run(EmptyTable(), jobs[..1]).0 == EmptyTable()[i := w];
    assert Run(EmptyTable(), jobs).0 == EmptyTable()[i := w][i := q];
    assert Probe(q, k1, 0) == 0 && Probe(q, k2, 0) == Probe(q, k2, 1) == 1;
  }
}
