/** `HAL_TCP_Read`. */
module TcpRead {
  import opened Words
  import opened Memory
  import opened TcpWorld

  // ----- the loop, call by call -----

  /** What Read does after the calls p; the first reading of the clock fixes the deadline. */
  function ReadNext(p: seq<Event>, tEnd: nat, len: nat): Next {
    if |p| < 2 then Reading
    else
      match p[|p| - 1]
      case Clock(now) => if now < tEnd then Waiting else Stop
      case Select(_, _, ready) =>
        if ready.Ready? || ready.NotSet? then Receiving
        else if ready.SelectInterrupted? && |Received(p)| < len then Reading else Stop
      case Recv(_, got) => if (got.Bytes? || got.RecvInterrupted?) && |Received(p)| < len then Reading else Stop
      case Send(_, _) => Stop
  }

  predicate ReadFits(p: seq<Event>, e: Event, tEnd: nat, len: nat) {
    match ReadNext(p, tEnd, len)
    case Reading => e.Clock?
    case Waiting => e.Select? && WaitsFor(p, e, tEnd)
    case Receiving => e.Recv? && e.want + |Received(p)| == len
    case _ => false
  }

  ghost predicate ReadTrace(h: seq<Event>, tEnd: nat, len: nat) {
    forall k {:trigger Before(h, k)} :: 0 <= k < |h| ==> ReadFits(Before(h, k), h[k], tEnd, len)
  }

  /** How a run of Read ended, what it left in a buffer that held o, and what it returns. */
  ghost predicate ReadEnded(h: seq<Event>, tEnd: nat, buf: seq<byte>, o: seq<byte>, len: nat, ret: int)
    requires len <= |o|
  {
    && h != [] && ReadTrace(h, tEnd, len) && ReadNext(h, tEnd, len) == Stop
    && WaitsToDeadline(h, tEnd) && AsksForMissing(h, len) && StopsAtEnd(h)
    && |Received(h)| <= len
    && buf == Splice(o, 0, Received(h))
    && ReturnedForRead(h, ret)
    && (|Received(h)| == len || IsEnd(h[|h| - 1]) || OutOfTime(h[|h| - 1], tEnd))
    && (ret == 0 ==> len == 0 || OutOfTime(h[|h| - 1], tEnd))
    && !IsPositive(h[|h| - 1]) && (len == 0 ==> |h| <= 4)
  }

  /** The number of bytes received as an `int32_t`; if there are none, -1 for an end of stream, -2 for a failure, else 0. */
  ghost predicate ReturnedForRead(h: seq<Event>, ret: int)
    requires h != []
  {
    var n, e := |Received(h)|, h[|h| - 1];
    && (0 < n < 0x8000_0000 ==> ret == n)
    && (n >= 0x8000_0000 ==> ret == n - 0x1_0000_0000)
    && (n == 0 ==> -2 <= ret <= 0)
    && (n == 0 ==> (ret == -1 <==> e.Recv? && e.got == Nothing))
    && (n == 0 ==> (ret == -2 <==> (e.Recv? && e.got == RecvFailed) || (e.Select? && e.ready == SelectFailed)))
  }

  /** The trace with one more call of Read. */
  lemma Appended(log: seq<Event>, base: seq<Event>, h: seq<Event>, e: Event, tEnd: nat, len: nat) returns (g: seq<Event>)
    requires log == base + h && h != []
    requires ReadTrace(h, tEnd, len) && ReadFits(h, e, tEnd, len)
    ensures g == h + [e] && log + [e] == base + g
    ensures ReadTrace(g, tEnd, len)
    ensures Received(g) == Received(h) + if e.Recv? && e.got.Bytes? then e.got.data else []
    ensures Signals(log + [e]) == Signals(log) + if IsSignal(e) then 1 else 0
  {
    g := h + [e];
    Snoc(h, e);
    Snoc(log, e);
    BeforeOneMore(h, e);
  }

  /** Between two calls of Read: the trace so far, and what it has left in the buffer. */
  ghost predicate ReadState(h: seq<Event>, tEnd: nat, buf: seq<byte>, o: seq<byte>, len: nat, lenRecv: nat) {
    && h != [] && ReadTrace(h, tEnd, len)
    && lenRecv == |Received(h)| <= len <= |o|
    && buf == Splice(o, 0, Received(h))
  }

  /** recv's write into the buffer, behind what was received so far. */
  method StoreBehind(buf: array<byte>, to: nat, data: seq<byte>, ghost o: seq<byte>, ghost r: seq<byte>)
    requires to == |r| && to + |data| <= |o| == buf.Length && buf[..] == Splice(o, 0, r)
    modifies buf
    ensures buf[..] == Splice(o, 0, r + data)
  {
    SpliceAppend(o, 0, r, data);
    Store(buf, to, data);
  }

  /** The branch of Read that calls recv. */
  method ReceiveSome(w: World, buf: array<byte>, len: nat, lenRecv: nat, tEnd: nat, ghost budget: nat,
                     ghost base: seq<Event>, ghost h: seq<Event>, ghost o: seq<byte>)
    returns (n: nat, errCode: int, ghost g: seq<Event>)
    requires w.Valid() && w.SignalsEnd(budget)
    requires w.log == base + h && ReadState(h, tEnd, buf[..], o, len, lenRecv) && ReadNext(h, tEnd, len) == Receiving
    modifies w`log, buf
    ensures w.Valid()
    ensures w.log == base + g && ReadState(g, tEnd, buf[..], o, len, n) && g[0] == h[0]
    ensures |g| == |h| + 1 && g[|h|].Recv?
    ensures errCode == ErrorOf(g[|h|])
    ensures ReadNext(g, tEnd, len) == if errCode == 0 && n < len then Reading else Stop
    ensures Signals(old(w.log)) <= Signals(w.log)
    ensures errCode == 0 ==> (n > lenRecv || Signals(old(w.log)) < Signals(w.log) <= budget)
  {
    n, errCode := lenRecv, 0;
    ghost var log := w.log;
    var got := w.DoRecv(len - lenRecv);
    g := Appended(log, base, h, Recv(len - lenRecv, got), tEnd, len);
    match got {
      case Bytes(data) =>
        StoreBehind(buf, lenRecv, data, o, Received(h));
        n := lenRecv + |data|;
      case Nothing =>
        errCode := -1;
      case RecvInterrupted =>
      case RecvFailed =>
        errCode := -2;
    }
  }

  /** select, for the time left by the last reading of the clock. */
  method SelectReadable(w: World, len: nat, tEnd: nat, tLeft: nat, ghost budget: nat, ghost base: seq<Event>, ghost h: seq<Event>)
    returns (ready: SelectResult, ghost g: seq<Event>)
    requires w.Valid() && w.SignalsEnd(budget)
    requires h != [] && w.log == base + h && ReadTrace(h, tEnd, len) && ReadNext(h, tEnd, len) == Waiting
    requires h[|h| - 1].Clock? && tLeft == tEnd - h[|h| - 1].now
    modifies w`log
    ensures w.Valid()
    ensures w.log == base + g && |g| == |h| + 1 && g[0] == h[0] && ReadTrace(g, tEnd, len) && Received(g) == Received(h)
    ensures g[|h|].Select? && g[|h|].ready == ready
    ensures Signals(w.log) == Signals(old(w.log)) + if ready == SelectInterrupted then 1 else 0
    ensures ready == SelectInterrupted ==> Signals(old(w.log)) < budget
  {
    ghost var log := w.log;
    ghost var e;
    ready, e := w.SelectFor(tLeft);
    g := Appended(log, base, h, e, tEnd, len);
  }

  method ReadClock(w: World, len: nat, tEnd: nat, ghost base: seq<Event>, ghost h: seq<Event>)
    returns (t: Millis, ghost g: seq<Event>)
    requires w.Valid()
    requires h != [] && w.log == base + h && ReadTrace(h, tEnd, len) && ReadNext(h, tEnd, len) == Reading
    modifies w`log
    ensures w.Valid()
    ensures w.log == base + g && g == h + [Clock(t)] && ReadTrace(g, tEnd, len) && Received(g) == Received(h)
    ensures Signals(w.log) == Signals(old(w.log))
  {
    ghost var log := w.log;
    t := w.Now();
    g := Appended(log, base, h, Clock(t), tEnd, len);
  }

  /** The start of an iteration: read the clock, and wait for the time left, if any. */
  method AwaitReadable(w: World, len: nat, tEnd: nat, ghost budget: nat, ghost base: seq<Event>, ghost h: seq<Event>)
    returns (late: bool, ready: SelectResult, ghost g: seq<Event>)
    requires w.Valid() && w.SignalsEnd(budget)
    requires h != [] && w.log == base + h && ReadTrace(h, tEnd, len) && ReadNext(h, tEnd, len) == Reading
    modifies w`log
    ensures w.Valid()
    ensures w.log == base + g && |h| < |g| <= |h| + 2 && g[0] == h[0] && ReadTrace(g, tEnd, len) && Received(g) == Received(h)
    ensures var last := g[|g| - 1];
            if late then last.Clock? && last.now >= tEnd else last.Select? && last.ready == ready
    ensures Signals(w.log) == Signals(old(w.log)) + if !late && ready == SelectInterrupted then 1 else 0
    ensures !late && ready == SelectInterrupted ==> Signals(old(w.log)) < budget
  {
    var t;
    t, g := ReadClock(w, len, tEnd, base, h);
    var tLeft := TimeLeft(tEnd, t);
    if tLeft == 0 {
      return true, TimedOut, g;
    }
    late := false;
    ready, g := SelectReadable(w, len, tEnd, tLeft, budget, base, g);
  }

  /** One iteration of Read's loop. */
  method ReadOnce(w: World, buf: array<byte>, len: nat, lenRecv: nat, tEnd: nat, ghost budget: nat,
                  ghost base: seq<Event>, ghost h: seq<Event>, ghost o: seq<byte>)
    returns (n: nat, errCode: int, stop: bool, ghost g: seq<Event>)
    requires w.Valid() && w.SignalsEnd(budget)
    requires w.log == base + h && ReadState(h, tEnd, buf[..], o, len, lenRecv) && ReadNext(h, tEnd, len) == Reading
    modifies w`log, buf
    ensures w.Valid()
    ensures w.log == base + g && ReadState(g, tEnd, buf[..], o, len, n) && g[0] == h[0]
    ensures errCode == ErrorOf(g[|g| - 1])
    ensures ReadNext(g, tEnd, len) == if !stop && n < len then Reading else Stop
    ensures |h| < |g| <= |h| + 3
    ensures !stop ==> (n > lenRecv && Signals(old(w.log)) <= Signals(w.log))
                      || (Signals(old(w.log)) < Signals(w.log) <= budget)
  {
    n, errCode, stop := lenRecv, 0, true;
    var late, ready;
    late, ready, g := AwaitReadable(w, len, tEnd, budget, base, h);
    if late {
      return;
    }
    match ready {
      case TimedOut =>
      case SelectFailed =>
        errCode := -2;
      case SelectInterrupted =>
        stop := false;
      case _ =>
        n, errCode, g := ReceiveSome(w, buf, len, lenRecv, tEnd, budget, base, g, o);
        stop := errCode != 0;
    }
  }

  /** The loop of Read. */
  method ReadLoop(w: World, buf: array<byte>, len: nat, now: Millis, tEnd: nat, ghost budget: nat, ghost base: seq<Event>)
    returns (ret: int, ghost h: seq<Event>)
    requires w.Valid() && w.SignalsEnd(budget) && len <= buf.Length && len < TWO_32
    requires w.log == base + [Clock(now)]
    modifies w`log, buf
    ensures w.Valid()
    ensures w.log == base + h && ReadEnded(h, tEnd, buf[..], old(buf[..]), len, ret) && h[0] == Clock(now)
  {
    ghost var o := buf[..];
    var lenRecv: nat := 0;
    var errCode := 0;
    h := [Clock(now)];
    Snoc([], Clock(now));
    assert [] + [Clock(now)] == h;
    var again := true;
    while again
      invariant w.Valid()
      invariant w.log == base + h && ReadState(h, tEnd, buf[..], o, len, lenRecv) && h[0] == Clock(now)
      invariant errCode == ErrorOf(h[|h| - 1])
      invariant ReadNext(h, tEnd, len) == if again then Reading else Stop
      invariant len == 0 ==> |h| <= if again then 1 else 4
      decreases again, if Signals(w.log) < budget then budget - Signals(w.log) else 0, len - lenRecv
    {
      var stop;
      lenRecv, errCode, stop, h := ReadOnce(w, buf, len, lenRecv, tEnd, budget, base, h, o);
      again := !stop && lenRecv < len;
    }
    ret := if lenRecv != 0 then Int32(lenRecv) else errCode;
    ReadLaws(h, tEnd, len);
  }

  /** HAL_TCP_Read.  It returns as long as signals end, even if the clock stands still. */
  method Read(w: World, fd: nat, buf: array<byte>, len: nat, timeoutMs: uint32, ghost budget: nat) returns (ret: int)
    requires w.Valid() && w.SignalsEnd(budget) && len <= buf.Length && len < TWO_32
    modifies w`log, buf
    ensures w.Valid()
    ensures |w.log| > |old(w.log)| && w.log[..|old(w.log)|] == old(w.log)
    ensures fd >= 1024 ==> ret == -1 && |w.log| == |old(w.log)| + 1 && buf[..] == old(buf[..])
    ensures fd < 1024 ==>
              var h := w.log[|old(w.log)|..];
              ReadEnded(h, Deadline(h, timeoutMs), buf[..], old(buf[..]), len, ret)
  {
    ghost var base := w.log;
    var now := w.Now();
    var tEnd := (now + timeoutMs as nat) % TWO_64;
    if fd >= FD_SETSIZE {
      return -1;
    }
    ghost var h;
    ret, h := ReadLoop(w, buf, len, now, tEnd, budget, base);
    assert w.log[|base|..] == h;
    assert Deadline(h, timeoutMs) == tEnd;
  }

  // ----- what the trace says -----

  lemma FirstIsClock(h: seq<Event>, tEnd: nat, len: nat)
    requires ReadTrace(h, tEnd, len) && h != []
    ensures h[0].Clock?
  {
    assert ReadFits(Before(h, 0), h[0], tEnd, len);
  }

  /** Selects wait to the deadline, recv follows exactly the positive selects and asks for what is missing, nothing
      follows an end, and a run that ends has received everything, met an end, or run out of time. */
  lemma {:induction false} ReadLaws(h: seq<Event>, tEnd: nat, len: nat)
    requires ReadTrace(h, tEnd, len) && h != [] && |Received(h)| <= len
    ensures WaitsToDeadline(h, tEnd) && AsksForMissing(h, len) && StopsAtEnd(h)
    ensures forall k :: 0 <= k < |h| ==> !h[k].Send?
    ensures ReadNext(h, tEnd, len) == Stop ==>
              && !IsPositive(h[|h| - 1])
              && (|Received(h)| == len || IsEnd(h[|h| - 1]) || OutOfTime(h[|h| - 1], tEnd))
  {
    FirstIsClock(h, tEnd, len);
    forall k | 0 <= k < |h|
      ensures h[k].Select? ==> WaitsFor(Before(h, k), h[k], tEnd)
      ensures AsksRightly(Before(h, k), h[k], len)
      ensures NotEnded(Before(h, k)) && !h[k].Send?
    {
      assert ReadFits(Before(h, k), h[k], tEnd, len);
    }
  }

  /** After every proper prefix that has everything, out of time or at an end the loop would have stopped: it goes on if
      and only if it must. */
  lemma GoesOn(h: seq<Event>, tEnd: nat, len: nat, k: nat)
    requires ReadTrace(h, tEnd, len) && 2 <= k < |h| && |Received(h[..k])| <= len
    ensures var e := h[k - 1];
            && !IsEnd(e) && !OutOfTime(e, tEnd)
            && (e.Recv? || (e.Select? && e.ready == SelectInterrupted) ==> |Received(h[..k])| < len && h[k].Clock?)
            && (e.Clock? ==> h[k].Select?)
            && (IsPositive(e) ==> h[k].Recv?)
  {
    assert ReadFits(Before(h, k), h[k], tEnd, len);
  }

  /** The contract leaves no choice: in one world, after one history, there is one run of Read. */
  lemma ReadIsDetermined(w: World, base: seq<Event>, h1: seq<Event>, h2: seq<Event>, timeoutMs: uint32, len: nat)
    requires w.Gives(base + h1) && w.Gives(base + h2) && h1 != [] && h2 != []
    requires ReadTrace(h1, Deadline(h1, timeoutMs), len) && ReadNext(h1, Deadline(h1, timeoutMs), len) == Stop
    requires ReadTrace(h2, Deadline(h2, timeoutMs), len) && ReadNext(h2, Deadline(h2, timeoutMs), len) == Stop
    ensures h1 == h2
  {
    FirstIsClock(h1, Deadline(h1, timeoutMs), len);
    FirstIsClock(h2, Deadline(h2, timeoutMs), len);
    SameAnswer(w, base, h1, h2, 0);
    var tEnd := Deadline(h1, timeoutMs);
    var n := if |h1| < |h2| then |h1| else |h2|;
    SameStart(w, base, h1, h2, tEnd, len, n);
    if n == |h1| {
      assert h2[..n] == h1;
      StopIsEnd(h2, tEnd, len, n);
    } else {
      assert h1[..n] == h2;
      StopIsEnd(h1, tEnd, len, n);
    }
  }

  lemma StopIsEnd(h: seq<Event>, tEnd: nat, len: nat, k: nat)
    requires ReadTrace(h, tEnd, len) && k <= |h| && ReadNext(h[..k], tEnd, len) == Stop
    ensures k == |h|
  {
    assert k < |h| ==> ReadFits(Before(h, k), h[k], tEnd, len);
  }

  lemma {:induction false} SameStart(w: World, base: seq<Event>, h1: seq<Event>, h2: seq<Event>, tEnd: nat, len: nat, k: nat)
    requires w.Gives(base + h1) && w.Gives(base + h2) && k <= |h1| && k <= |h2|
    requires ReadTrace(h1, tEnd, len) && ReadTrace(h2, tEnd, len)
    ensures h1[..k] == h2[..k]
    decreases k
  {
    if k > 0 {
      SameStart(w, base, h1, h2, tEnd, len, k - 1);
      var p := h1[..k - 1];
      SameAnswer(w, base, h1, h2, k - 1);
      assert Before(h1, k - 1) == p == Before(h2, k - 1);
      SameFit(w, base, p, h1[k - 1], h2[k - 1], tEnd, len);
      assert h1[..k] == p + [h1[k - 1]] && h2[..k] == p + [h2[k - 1]];
    }
  }

  lemma SameFit(w: World, base: seq<Event>, p: seq<Event>, e1: Event, e2: Event, tEnd: nat, len: nat)
    requires ReadFits(p, e1, tEnd, len) && ReadFits(p, e2, tEnd, len)
    requires w.Answers(base + p, e1) && w.Answers(base + p, e2)
    ensures e1 == e2
  {
    if e1.Select? {
      SameWait(p, e1, e2, tEnd);
    }
  }

  /** Read with length 0, on a kernel whose recv has nothing to deliver to a buffer without room: the answer is -1, a
      closed connection, if and only if select found the descriptor readable, closed or not. */
  method ReadNothing(w: World, fd: nat, buf: array<byte>, timeoutMs: uint32, ghost budget: nat) returns (ret: int)
    requires w.Valid() && w.SignalsEnd(budget) && fd < 1024
    requires forall h :: w.recv(h, 0) == Nothing
    modifies w`log, buf
    ensures |w.log| > |old(w.log)| && buf[..] == old(buf[..])
    ensures ret == -1 <==> exists k :: |old(w.log)| <= k < |w.log| && IsPositive(w.log[k])
  {
    ghost var n := |w.log|;
    ret := Read(w, fd, buf, 0, timeoutMs, budget);
    ghost var h := w.log[n..];
    assert Received(h) == [];
    forall k | 0 <= k < |h| && h[k].Recv?
      ensures h[k].got == Nothing
    {
      RecvAt(h, 0, k);
      assert w.Answers(Before(w.log, n + k), w.log[n + k]);
    }
    ghost var last := |h| - 1;
    forall k | 0 <= k < last
      ensures !IsEnd(h[k])
    {
      EndIsLast(h, k);
    }
    if ret == -1 {
      assert h[last].Recv?;
      RecvAt(h, 0, last);
      assert IsPositive(w.log[n + last - 1]);
    }
    if k :| n <= k < |w.log| && IsPositive(w.log[k]) {
      RecvAt(h, 0, k - n + 1);
    }
  }

  lemma RecvAt(h: seq<Event>, len: nat, k: nat)
    requires AsksForMissing(h, len) && k < |h|
    ensures h[k].Recv? <==> k > 0 && IsPositive(h[k - 1])
    ensures h[k].Recv? ==> h[k].want <= len
  {
    assert AsksRightly(Before(h, k), h[k], len);
  }

  /** Read in any lawful environment: the requirements on the world can be met, whatever it is to answer. */
  method ReadReplayed(script: seq<Event>, fd: nat, buf: array<byte>, len: nat, timeoutMs: uint32)
    returns (w: World, ret: int)
    requires IsLawful(script) && len <= buf.Length && len < TWO_32
    modifies buf
    ensures fresh(w) && w.Valid() && w.Gives(script) && w.log != []
  {
    w := Replay(script, 0, |script|);
    ret := Read(w, fd, buf, len, timeoutMs, Signals(script));
  }
}
