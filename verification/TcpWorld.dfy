/** The environment of the TCP loops: the clock, select, recv and send answer as they like, depending on everything that
    happened before, and every call is recorded. */
module TcpWorld {
  import opened Words

  // ----- the environment -----

  /** select: positive with the descriptor set, positive with it clear, zero, EINTR, any other error. */
  datatype SelectResult = Ready | NotSet | TimedOut | SelectInterrupted | SelectFailed

  /** recv: positive, zero, EINTR, any other error. */
  datatype RecvResult = Bytes(data: seq<byte>) | Nothing | RecvInterrupted | RecvFailed

  /** send: not negative, EINTR, any other error. */
  datatype SendResult = Sent(n: nat) | SendInterrupted | SendFailed

  /** What `_linux_get_time_ms` can return. */
  type Millis = n: nat | n < 0x1_0000_0000_0000_0000

  /** A system call and its answer. */
  datatype Event =
    | Clock(now: Millis)
    | Select(sec: nat, usec: nat, ready: SelectResult)
    | Recv(want: nat, got: RecvResult)
    | Send(data: seq<byte>, sent: SendResult)

  class World {
    const clock: seq<Event> -> Millis
    const select: (seq<Event>, nat, nat) -> SelectResult
    const recv: (seq<Event>, nat) -> RecvResult
    const send: (seq<Event>, seq<byte>) -> SendResult

    /** Everything that was called so far. */
    var log: seq<Event>

    constructor (clock: seq<Event> -> Millis, select: (seq<Event>, nat, nat) -> SelectResult,
                 recv: (seq<Event>, nat) -> RecvResult, send: (seq<Event>, seq<byte>) -> SendResult)
      ensures this.clock == clock && this.select == select && this.recv == recv && this.send == send && log == []
      ensures Gives(log)
    {
      this.clock, this.select, this.recv, this.send, log := clock, select, recv, send, [];
    }

    /** What the kernel promises: transfers no larger than asked, and results that fit an `int`. */
    ghost predicate Transfers() {
      && (forall h: seq<Event>, want: nat :: GoodRecv(recv(h, want), want))
      && (forall h: seq<Event>, data: seq<byte> :: GoodSend(send(h, data), |data|))
    }

    /** What `gettimeofday` does not promise: the clock is never set back. */
    ghost predicate Monotone() {
      forall h: seq<Event> :: NotBefore(h, clock(h))
    }

    /** This world gives the answer that e records, after the calls h. */
    ghost predicate Answers(h: seq<Event>, e: Event) {
      match e
      case Clock(now) => now == clock(h)
      case Select(sec, usec, ready) => ready == select(h, sec, usec)
      case Recv(want, got) => got == recv(h, want)
      case Send(data, sent) => sent == send(h, data)
    }

    /** Every answer in h is this world's. */
    ghost predicate Gives(h: seq<Event>) {
      forall k {:trigger Before(h, k)} :: 0 <= k < |h| ==> Answers(Before(h, k), h[k])
    }

    lemma GivesOneMore(h: seq<Event>, e: Event)
      requires Gives(h) && Answers(h, e)
      ensures Gives(h + [e])
    {
      BeforeOneMore(h, e);
    }

    ghost predicate Valid()
      reads this
    {
      Transfers() && Gives(log)
    }

    /** At most `budget` calls are interrupted by signals. */
    ghost predicate SignalsEnd(budget: nat) {
      && (forall h: seq<Event>, s: nat, u: nat :: select(h, s, u) == SelectInterrupted ==> Signals(h) < budget)
      && (forall h: seq<Event>, want: nat :: recv(h, want) == RecvInterrupted ==> Signals(h) < budget)
    }

    /** The clock reaches `deadline` at the latest when `horizon` calls have been made. */
    ghost predicate Reaches(deadline: nat, horizon: nat) {
      forall h: seq<Event> :: |h| >= horizon ==> clock(h) >= deadline
    }

    method Now() returns (now: Millis)
      requires Valid()
      modifies `log
      ensures Valid()
      ensures log == old(log) + [Clock(now)] && now == clock(old(log))
      ensures Monotone() ==> NotBefore(old(log), now)
    {
      now := clock(log);
      GivesOneMore(log, Clock(now));
      log := log + [Clock(now)];
    }

    /** select with a timeout of ms milliseconds, split into tv_sec and tv_usec */
    method SelectFor(ms: nat) returns (r: SelectResult, ghost e: Event)
      requires Valid()
      modifies `log
      ensures Valid()
      ensures log == old(log) + [e] && e.Select? && e.ready == r && r == select(old(log), e.sec, e.usec)
      ensures 1_000_000 * e.sec + e.usec == 1000 * ms && e.usec < 1_000_000
    {
      Timeval(ms);
      var sec, usec := ms / 1000, ms % 1000 * 1000;
      r := DoSelect(sec, usec);
      e := Select(sec, usec, r);
    }

    /** select with a timeout of sec seconds and usec microseconds */
    method DoSelect(sec: nat, usec: nat) returns (r: SelectResult)
      requires Valid()
      modifies `log
      ensures Valid()
      ensures log == old(log) + [Select(sec, usec, r)] && r == select(old(log), sec, usec)
    {
      r := select(log, sec, usec);
      GivesOneMore(log, Select(sec, usec, r));
      log := log + [Select(sec, usec, r)];
    }

    method DoRecv(want: nat) returns (r: RecvResult)
      requires Valid()
      modifies `log
      ensures Valid()
      ensures log == old(log) + [Recv(want, r)] && r == recv(old(log), want)
      ensures GoodRecv(r, want)
    {
      r := recv(log, want);
      GivesOneMore(log, Recv(want, r));
      log := log + [Recv(want, r)];
    }

    method DoSend(data: seq<byte>) returns (r: SendResult)
      requires Valid()
      modifies `log
      ensures Valid()
      ensures log == old(log) + [Send(data, r)]
      ensures GoodSend(r, |data|)
    {
      r := send(log, data);
      GivesOneMore(log, Send(data, r));
      log := log + [Send(data, r)];
    }
  }

  /** What happened before call k. */
  function Before(h: seq<Event>, k: nat): seq<Event>
    requires k <= |h|
  {
    h[..k]
  }

  predicate GoodRecv(r: RecvResult, want: nat) {
    r.Bytes? ==> 0 < |r.data| <= want && |r.data| < 0x8000_0000
  }

  predicate GoodSend(r: SendResult, offered: nat) {
    r.Sent? ==> r.n <= offered && r.n < 0x8000_0000
  }

  /** No reading of the clock so far is later than `now`. */
  ghost predicate NotBefore(h: seq<Event>, now: int) {
    forall k :: 0 <= k < |h| && h[k].Clock? ==> h[k].now <= now
  }

  predicate IsSignal(e: Event) {
    (e.Select? && e.ready.SelectInterrupted?) || (e.Recv? && e.got.RecvInterrupted?) || (e.Send? && e.sent.SendInterrupted?)
  }

  /** The number of interrupted calls. */
  function Signals(h: seq<Event>): nat {
    if h == [] then 0 else Signals(h[..|h| - 1]) + if IsSignal(h[|h| - 1]) then 1 else 0
  }

  /** What recv delivered, in order. */
  function Received(h: seq<Event>): seq<byte> {
    if h == [] then []
    else
      var e := h[|h| - 1];
      Received(h[..|h| - 1]) + if e.Recv? && e.got.Bytes? then e.got.data else []
  }

  /** What send accepted, in order. */
  function Accepted(h: seq<Event>): seq<byte> {
    if h == [] then []
    else
      var e := h[|h| - 1];
      Accepted(h[..|h| - 1]) + if e.Send? && e.sent.Sent? && e.sent.n <= |e.data| then e.data[..e.sent.n] else []
  }

  function Sends(h: seq<Event>): nat {
    if h == [] then 0 else Sends(h[..|h| - 1]) + if h[|h| - 1].Send? then 1 else 0
  }

  // The rules of the two loops.  Each says of every call what has happened before it.

  /** Every select follows a reading of the clock that is before the deadline, and waits exactly for the difference. */
  ghost predicate WaitsToDeadline(h: seq<Event>, tEnd: nat) {
    forall k {:trigger Before(h, k)} :: 0 <= k < |h| && h[k].Select? ==> WaitsFor(Before(h, k), h[k], tEnd)
  }

  predicate WaitsFor(p: seq<Event>, e: Event, tEnd: nat)
    requires e.Select?
  {
    && p != [] && p[|p| - 1].Clock? && p[|p| - 1].now < tEnd
    && 1_000_000 * e.sec + e.usec == 1000 * (tEnd - p[|p| - 1].now) && e.usec < 1_000_000
  }

  predicate IsPositive(e: Event) {
    e.Select? && (e.ready.Ready? || e.ready.NotSet?)
  }

  /** Every positive select is followed by a recv and every recv follows one, and asks for exactly what is missing. */
  ghost predicate AsksForMissing(h: seq<Event>, len: nat) {
    forall k {:trigger Before(h, k)} :: 0 <= k < |h| ==> AsksRightly(Before(h, k), h[k], len)
  }

  predicate AsksRightly(p: seq<Event>, e: Event, len: nat) {
    && (e.Recv? <==> p != [] && IsPositive(p[|p| - 1]))
    && (e.Recv? ==> e.want + |Received(p)| == len)
  }

  /** Every send offers exactly what has not been accepted yet. */
  ghost predicate OffersTheRest(h: seq<Event>, data: seq<byte>) {
    forall k {:trigger Before(h, k)} :: 0 <= k < |h| && h[k].Send? ==> Offers(Before(h, k), h[k], data)
  }

  predicate Offers(p: seq<Event>, e: Event, data: seq<byte>)
    requires e.Send?
  {
    |Accepted(p)| <= |data| && e.data == data[|Accepted(p)|..]
  }

  /** Every send follows a select that found the descriptor writable, or a reading of the clock with no time left. */
  ghost predicate SendsInTurn(h: seq<Event>, tEnd: nat) {
    forall k {:trigger Before(h, k)} :: 0 <= k < |h| && h[k].Send? ==> InTurn(Before(h, k), tEnd)
  }

  predicate InTurn(p: seq<Event>, tEnd: nat) {
    p != [] && MaySend(p[|p| - 1], tEnd)
  }

  predicate MaySend(e: Event, tEnd: nat) {
    (e.Select? && e.ready.Ready?) || (e.Clock? && e.now >= tEnd)
  }

  /** A failure, an end of stream or a timeout of select. */
  predicate IsEnd(e: Event) {
    || (e.Select? && (e.ready.TimedOut? || e.ready.SelectFailed?))
    || (e.Recv? && (e.got.Nothing? || e.got.RecvFailed?))
    || (e.Send? && e.sent.SendFailed?)
  }

  /** Nothing is called after one of these. */
  ghost predicate StopsAtEnd(h: seq<Event>) {
    forall k {:trigger Before(h, k)} :: 0 <= k < |h| ==> NotEnded(Before(h, k))
  }

  predicate NotEnded(p: seq<Event>) {
    p != [] ==> !IsEnd(p[|p| - 1])
  }

  lemma EndIsLast(h: seq<Event>, k: nat)
    requires StopsAtEnd(h) && k < |h| - 1
    ensures !IsEnd(h[k])
  {
    assert NotEnded(Before(h, k + 1));
  }

  /** What happened before the calls of h, and before one more. */
  lemma BeforeOneMore(h: seq<Event>, e: Event)
    ensures forall k {:trigger Before(h + [e], k)} :: 0 <= k <= |h| ==>
              && Before(h + [e], k) == (if k < |h| then Before(h, k) else h)
              && (h + [e])[k] == (if k < |h| then h[k] else e)
  {
  }

  /** What one of the loops does after a history: read the clock at the start of an iteration, wait in select, call recv,
      call send, read the clock in the loop condition, or return. */
  datatype Next = Reading | Waiting | Receiving | Offering | Asking | Stop

  /** The answers of one world to the same call after the same history are the same. */
  lemma SameAnswer(w: World, base: seq<Event>, h1: seq<Event>, h2: seq<Event>, k: nat)
    requires w.Gives(base + h1) && w.Gives(base + h2) && k < |h1| && k < |h2| && h1[..k] == h2[..k]
    ensures w.Answers(base + h1[..k], h1[k]) && w.Answers(base + h1[..k], h2[k])
  {
    assert Before(base + h1, |base| + k) == base + h1[..k];
    assert Before(base + h2, |base| + k) == base + h2[..k];
    assert (base + h1)[|base| + k] == h1[k] && (base + h2)[|base| + k] == h2[k];
  }

  /** Two selects that wait from the same reading to the same deadline ask for the same time. */
  lemma SameWait(p: seq<Event>, e1: Event, e2: Event, tEnd: nat)
    requires e1.Select? && e2.Select? && WaitsFor(p, e1, tEnd) && WaitsFor(p, e2, tEnd)
    ensures e1.sec == e2.sec && e1.usec == e2.usec
  {
  }

  lemma {:induction false} Snoc(h: seq<Event>, e: Event)
    ensures (h + [e])[..|h|] == h && (h + [e])[|h|] == e
    ensures Received(h + [e]) == Received(h) + if e.Recv? && e.got.Bytes? then e.got.data else []
    ensures Signals(h + [e]) == Signals(h) + if IsSignal(e) then 1 else 0
    ensures Sends(h + [e]) == Sends(h) + if e.Send? then 1 else 0
    ensures Accepted(h + [e]) ==
            Accepted(h) + if e.Send? && e.sent.Sent? && e.sent.n <= |e.data| then e.data[..e.sent.n] else []
  {
    assert (h + [e])[..|h|] == h;
  }

  /** Offered in order, what was accepted is a prefix of the data: nothing skipped, nothing twice. */
  lemma {:induction false} AcceptedIsPrefix(h: seq<Event>, data: seq<byte>)
    requires OffersTheRest(h, data)
    ensures Accepted(h) <= data
    decreases |h|
  {
    if h != [] {
      var n := |h| - 1;
      assert h == h[..n] + [h[n]];
      BeforeOneMore(h[..n], h[n]);
      assert OffersTheRest(h[..n], data) by {
        forall k | 0 <= k < n && h[..n][k].Send?
          ensures Offers(Before(h[..n], k), h[..n][k], data)
        {
          assert Before(h[..n], k) == Before(h, k);
        }
      }
      assert Before(h, n) == h[..n];
      AcceptedIsPrefix(h[..n], data);
      var a, e := Accepted(h[..n]), h[n];
      if e.Send? && e.sent.Sent? && e.sent.n <= |e.data| {
        assert a + e.data[..e.sent.n] == data[..|a| + e.sent.n];
      }
    }
  }

  // ----- the time left -----

  /** _linux_time_left */
  function TimeLeft(tEnd: nat, now: nat): nat {
    if tEnd > now then tEnd - now else 0
  }

  /** The `int32_t` a byte count of type `uint32_t` is returned as. */
  function Int32(n: nat): int {
    if n < 0x8000_0000 then n else n - 0x1_0000_0000
  }

  /** Splitting milliseconds into tv_sec and tv_usec loses nothing. */
  lemma Timeval(ms: nat)
    ensures 1_000_000 * (ms / 1000) + ms % 1000 * 1000 == 1000 * ms
    ensures ms % 1000 * 1000 < 1_000_000
  {
  }

  const FD_SETSIZE: nat := 1024

  /** What an error code says about the last call. */
  function ErrorOf(e: Event): int {
    if e.Recv? && e.got.Nothing? then -1
    else if (e.Recv? && e.got.RecvFailed?) || (e.Select? && e.ready.SelectFailed?) then -2
    else 0
  }

  /** The last call says that the time is over. */
  predicate OutOfTime(e: Event, tEnd: nat) {
    (e.Clock? && e.now >= tEnd) || (e.Select? && e.ready.TimedOut?)
  }

  /** The deadline a trace starts with. */
  function Deadline(h: seq<Event>, timeoutMs: uint32): nat {
    if h != [] && h[0].Clock? then (h[0].now + timeoutMs as nat) % TWO_64 else 0
  }

  /** No select waits past the deadline. */
  lemma WaitsAreBounded(h: seq<Event>, tEnd: nat, k: nat)
    requires WaitsToDeadline(h, tEnd) && k < |h| && h[k].Select?
    ensures k > 0 && h[k - 1].Clock? && h[k - 1].now < tEnd
    ensures 1000 * h[k - 1].now + 1_000_000 * h[k].sec + h[k].usec == 1000 * tEnd
  {
    assert WaitsFor(Before(h, k), h[k], tEnd);
  }

  // ----- every lawful history is the history of a world -----

  /** The answers of h are ones the kernel may give: no transfer larger than asked. */
  ghost predicate IsLawful(h: seq<Event>) {
    forall k :: 0 <= k < |h| ==> IsGood(h[k])
  }

  predicate IsGood(e: Event) {
    && (e.Recv? ==> GoodRecv(e.got, e.want))
    && (e.Send? ==> GoodSend(e.sent, |e.data|))
  }

  /** The clock was not set back in h. */
  ghost predicate RunsForward(h: seq<Event>) {
    forall i, j :: 0 <= i < j < |h| && h[i].Clock? && h[j].Clock? ==> h[i].now <= h[j].now
  }

  /** What a world that keeps its promises answers is lawful, and its clock runs forward if it is monotone. */
  lemma GivesIsLawful(w: World, h: seq<Event>)
    requires w.Transfers() && w.Gives(h)
    ensures IsLawful(h)
    ensures w.Monotone() ==> RunsForward(h)
  {
    forall k | 0 <= k < |h|
      ensures w.Answers(Before(h, k), h[k])
    {
    }
    forall j | 0 <= j < |h| && h[j].Clock? && w.Monotone()
      ensures NotBefore(h[..j], h[j].now)
    {
      assert h[..j] == Before(h, j);
    }
    forall i, j | 0 <= i < j < |h| && h[i].Clock? && h[j].Clock? && w.Monotone()
      ensures h[i].now <= h[j].now
    {
      assert h[..j][i] == h[i];
    }
  }

  /** As long as the deadline does not wrap around, a select waits no longer than the time-out the caller gave if and only
      if the clock was not set back behind the reading the deadline was made of. */
  lemma WaitsLongerWhenSetBack(h: seq<Event>, timeoutMs: uint32, k: nat)
    requires h != [] && h[0].Clock? && h[0].now + timeoutMs as nat < TWO_64 && k < |h| && h[k].Select?
    requires WaitsToDeadline(h, Deadline(h, timeoutMs))
    ensures k > 0 && h[k - 1].Clock?
    ensures 1_000_000 * h[k].sec + h[k].usec <= 1000 * timeoutMs as nat <==> h[0].now <= h[k - 1].now
  {
    WaitsAreBounded(h, Deadline(h, timeoutMs), k);
  }

  /** It happens: set back from 10 to 0 ms before the first wait, with a time-out of 5 ms, select waits for 15 ms. */
  lemma SetBackExample()
    ensures var h := [Clock(10), Clock(0), Select(0, 15_000, Ready)];
            && IsLawful(h) && WaitsToDeadline(h, Deadline(h, 5))
            && 1_000_000 * h[2].sec + h[2].usec > 1000 * 5
  {
    var h := [Clock(10), Clock(0), Select(0, 15_000, Ready)];
    assert Deadline(h, 5) == 15;
    assert Before(h, 2) == [Clock(10), Clock(0)];
  }

  /** With a clock that runs forward no select waits longer than the time-out, not even when the deadline wraps around. */
  lemma NeverWaitsLonger(h: seq<Event>, timeoutMs: uint32, k: nat)
    requires RunsForward(h) && h != [] && h[0].Clock? && k < |h| && h[k].Select?
    requires WaitsToDeadline(h, Deadline(h, timeoutMs))
    ensures 1_000_000 * h[k].sec + h[k].usec <= 1000 * timeoutMs as nat
  {
    var tEnd := Deadline(h, timeoutMs);
    WaitsAreBounded(h, tEnd, k);
    assert tEnd <= h[0].now + timeoutMs as nat;
    if k > 1 {
      assert h[0].now <= h[k - 1].now;
    }
  }

  /** The latest reading of the clock in h. */
  function Latest(h: seq<Event>): (now: Millis)
    ensures NotBefore(h, now)
  {
    if h == [] then 0
    else
      var t, e := Latest(h[..|h| - 1]), h[|h| - 1];
      if e.Clock? && e.now > t then e.now else t
  }

  // A world that follows a script as long as it is asked for what comes next there; from then on its clock stands at
  // the latest reading, or at `deadline` after `horizon` calls, and no call succeeds.

  function ScriptClock(script: seq<Event>, deadline: Millis, horizon: nat, h: seq<Event>): (now: Millis) {
    if h < script && script[|h|].Clock? then script[|h|].now
    else if |h| >= horizon && deadline > Latest(h) then deadline
    else Latest(h)
  }

  function ScriptSelect(script: seq<Event>, h: seq<Event>): SelectResult {
    if h < script && script[|h|].Select? then script[|h|].ready else TimedOut
  }

  function ScriptRecv(script: seq<Event>, h: seq<Event>, want: nat): RecvResult {
    if h < script && script[|h|].Recv? && script[|h|].want == want then script[|h|].got else Nothing
  }

  function ScriptSend(script: seq<Event>, h: seq<Event>, data: seq<byte>): SendResult {
    if h < script && script[|h|].Send? && script[|h|].data == data then script[|h|].sent else SendFailed
  }

  /** Every lawful history is what some world answers that keeps all its promises, with a monotone clock if the clock of
      the history runs forward. */
  method Replay(script: seq<Event>, deadline: Millis, horizon: nat) returns (w: World)
    requires IsLawful(script) && |script| <= horizon
    ensures fresh(w) && w.log == [] && w.Valid()
    ensures w.Gives(script)
    ensures RunsForward(script) ==> w.Monotone()
    ensures w.SignalsEnd(Signals(script)) && w.Reaches(deadline, horizon)
    ensures Follows(w, script, deadline, horizon)
  {
    w := new World((h: seq<Event>) => ScriptClock(script, deadline, horizon, h),
                   (h: seq<Event>, sec: nat, usec: nat) => ScriptSelect(script, h),
                   (h: seq<Event>, want: nat) => ScriptRecv(script, h, want),
                   (h: seq<Event>, data: seq<byte>) => ScriptSend(script, h, data));
    ScriptLawful(w, script, deadline, horizon);
    ScriptGiven(w, script, deadline, horizon);
  }

  ghost predicate Follows(w: World, script: seq<Event>, deadline: Millis, horizon: nat) {
    && (forall h: seq<Event> :: w.clock(h) == ScriptClock(script, deadline, horizon, h))
    && (forall h: seq<Event>, sec: nat, usec: nat :: w.select(h, sec, usec) == ScriptSelect(script, h))
    && (forall h: seq<Event>, want: nat :: w.recv(h, want) == ScriptRecv(script, h, want))
    && (forall h: seq<Event>, data: seq<byte> :: w.send(h, data) == ScriptSend(script, h, data))
  }

  lemma {:induction false} ScriptLawful(w: World, script: seq<Event>, deadline: Millis, horizon: nat)
    requires Follows(w, script, deadline, horizon) && IsLawful(script) && |script| <= horizon
    ensures w.Transfers() && w.SignalsEnd(Signals(script)) && w.Reaches(deadline, horizon)
    ensures RunsForward(script) ==> w.Monotone()
  {
    forall h: seq<Event> | h < script
      ensures IsSignal(script[|h|]) ==> Signals(h) < Signals(script)
    {
      SignalsGrow(script, h);
    }
    forall h: seq<Event>, want: nat
      ensures GoodRecv(ScriptRecv(script, h, want), want)
    {
      assert h < script ==> IsGood(script[|h|]);
    }
    forall h: seq<Event>, data: seq<byte>
      ensures GoodSend(ScriptSend(script, h, data), |data|)
    {
      assert h < script ==> IsGood(script[|h|]);
    }
    forall h: seq<Event> | RunsForward(script)
      ensures NotBefore(h, ScriptClock(script, deadline, horizon, h))
    {
      assert h < script ==> forall i :: 0 <= i < |h| ==> h[i] == script[i];
    }
  }

  lemma {:induction false} SignalsGrow(script: seq<Event>, h: seq<Event>)
    requires h < script
    ensures Signals(h) + (if IsSignal(script[|h|]) then 1 else 0) <= Signals(script)
    decreases |script|
  {
    var n := |script| - 1;
    if |h| < n {
      SignalsGrow(script[..n], h);
    } else {
      assert h == script[..n];
    }
  }

  lemma ScriptGiven(w: World, script: seq<Event>, deadline: Millis, horizon: nat)
    requires Follows(w, script, deadline, horizon)
    ensures w.Gives(script)
  {
    forall k | 0 <= k < |script|
      ensures w.Answers(Before(script, k), script[k])
    {
      assert Before(script, k) < script && |Before(script, k)| == k;
    }
  }
}
