/** `HAL_TCP_Write`. */
module TcpWrite {
  import opened Words
  import opened TcpWorld

  // ----- the loop, call by call -----

  /** The latest select or send was positive, or there was none yet. */
  function LastPositive(p: seq<Event>): bool {
    if p == [] then true
    else
      match p[|p| - 1]
      case Select(_, _, ready) => ready.Ready?
      case Send(_, sent) => sent.Sent? && sent.n > 0
      case _ => LastPositive(p[..|p| - 1])
  }

  /** The condition of the loop: it looks at the clock only if something is left to send. */
  function AfterIteration(p: seq<Event>, data: seq<byte>): Next {
    if |Accepted(p)| < |data| then Asking else Stop
  }

  /** What Write does after the calls p; the first reading of the clock fixes the deadline. */
  function WriteNext(p: seq<Event>, tEnd: nat, data: seq<byte>): Next {
    if |p| < 2 then Reading
    else
      var q := p[..|p| - 1];
      match p[|p| - 1]
      case Clock(now) =>
        if WriteNext(q, tEnd, data) == Asking then if now < tEnd then Reading else Stop
        else if now < tEnd then Waiting
        else if LastPositive(q) then Offering
        else AfterIteration(p, data)
      case Select(_, _, ready) =>
        if ready.Ready? then Offering
        else if ready.NotSet? || ready.SelectInterrupted? then AfterIteration(p, data)
        else Stop
      case Send(_, sent) => if sent.SendFailed? then Stop else AfterIteration(p, data)
      case Recv(_, _) => Stop
  }

  predicate WriteFits(p: seq<Event>, e: Event, tEnd: nat, data: seq<byte>) {
    match WriteNext(p, tEnd, data)
    case Reading => e.Clock?
    case Asking => e.Clock?
    case Waiting => e.Select? && WaitsFor(p, e, tEnd)
    case Offering => e.Send? && Offers(p, e, data)
    case _ => false
  }

  ghost predicate WriteTrace(h: seq<Event>, tEnd: nat, data: seq<byte>) {
    forall k {:trigger Before(h, k)} :: 0 <= k < |h| ==> WriteFits(Before(h, k), h[k], tEnd, data)
  }

  /** select or send failed for good. */
  predicate IsFailure(e: Event) {
    (e.Select? && e.ready.SelectFailed?) || (e.Send? && e.sent.SendFailed?)
  }

  /** How a run of Write ended, and what it returns: -1 after a failure, else the number of bytes accepted as an
      `int32_t`. */
  ghost predicate WriteEnded(h: seq<Event>, tEnd: nat, data: seq<byte>, res: int) {
    && h != [] && WriteTrace(h, tEnd, data) && WriteNext(h, tEnd, data) == Stop
    && WaitsToDeadline(h, tEnd) && OffersTheRest(h, data) && SendsInTurn(h, tEnd) && StopsAtEnd(h)
    && SendsWhenReady(h) && SendsWhenLate(h, tEnd)
    && Accepted(h) <= data
    && (IsFailure(h[|h| - 1]) ==> res == -1)
    && (!IsFailure(h[|h| - 1]) && |Accepted(h)| < 0x8000_0000 ==> res == |Accepted(h)|)
    && (!IsFailure(h[|h| - 1]) && |Accepted(h)| >= 0x8000_0000 ==> res == |Accepted(h)| - 0x1_0000_0000)
    && (IsFailure(h[|h| - 1]) || |Accepted(h)| == |data| || OutOfTime(h[|h| - 1], tEnd))
  }

  /** As soon as select finds the descriptor writable, Write sends. */
  ghost predicate SendsWhenReady(h: seq<Event>) {
    forall k :: 0 <= k < |h| && h[k].Select? && h[k].ready == Ready ==> k + 1 < |h| && h[k + 1].Send?
  }

  /** Reading k starts an iteration: it is the second one, or follows a reading in the loop condition. */
  predicate StartsIteration(h: seq<Event>, k: nat, tEnd: nat)
    requires 0 < k < |h|
  {
    k == 1 || (h[k - 1].Clock? && h[k - 1].now < tEnd)
  }

  /** A late reading is followed by a send if and only if it starts an iteration and the latest select or send before it
      was positive, or there was none. */
  ghost predicate SendsWhenLate(h: seq<Event>, tEnd: nat) {
    forall k {:trigger h[k].Clock?} :: 0 < k < |h| && h[k].Clock? && h[k].now >= tEnd ==>
      ((k + 1 < |h| && h[k + 1].Send?) <==> StartsIteration(h, k, tEnd) && LastPositive(Before(h, k)))
  }

  /** After a late reading, other than the one that set the deadline, there are at most one send and one more reading. */
  ghost predicate LateIsLast(h: seq<Event>, tEnd: nat) {
    forall k :: 0 < k < |h| && h[k].Clock? && h[k].now >= tEnd ==> |h| <= k + 3 && OneSendAfter(h, k)
  }

  ghost predicate OneSendAfter(h: seq<Event>, k: nat) {
    && (forall j :: k < j < |h| ==> h[j].Clock? || h[j].Send?)
    && !(exists i, j :: k < i < j < |h| && h[i].Send? && h[j].Send?)
  }

  /** The trace with one more call of Write. */
  lemma AppendedWrite(log: seq<Event>, base: seq<Event>, h: seq<Event>, e: Event, tEnd: nat, data: seq<byte>)
    returns (g: seq<Event>)
    requires log == base + h && h != []
    requires WriteTrace(h, tEnd, data) && WriteFits(h, e, tEnd, data)
    ensures g == h + [e] && log + [e] == base + g && g[0] == h[0]
    ensures g[..|h|] == h && g[|h|] == e
    ensures WriteTrace(g, tEnd, data)
    ensures Accepted(g) ==
            Accepted(h) + if e.Send? && e.sent.Sent? && e.sent.n <= |e.data| then e.data[..e.sent.n] else []
  {
    g := h + [e];
    Snoc(h, e);
    BeforeOneMore(h, e);
  }

  /** Between two calls of Write. */
  ghost predicate WriteState(h: seq<Event>, tEnd: nat, data: seq<byte>, lenSent: nat) {
    && h != [] && WriteTrace(h, tEnd, data)
    && lenSent == |Accepted(h)| <= |data|
  }

  /** The start of an iteration of Write: read the clock, and wait for the time left, if any. */
  method AwaitWritable(w: World, tEnd: nat, lenSent: nat, ghost data: seq<byte>, ghost base: seq<Event>, ghost h: seq<Event>)
    returns (late: bool, ready: SelectResult, ghost g: seq<Event>)
    requires w.Valid()
    requires w.log == base + h && WriteState(h, tEnd, data, lenSent) && WriteNext(h, tEnd, data) == Reading
    modifies w`log
    ensures w.Valid()
    ensures w.log == base + g && |g| > |h| && g[0] == h[0] && WriteState(g, tEnd, data, lenSent)
    ensures var last := g[|g| - 1];
            if late then g[..|g| - 1] == h && last.Clock? && last.now >= tEnd else last.Select? && last.ready == ready
  {
    ghost var log := w.log;
    var t := w.Now();
    g := AppendedWrite(log, base, h, Clock(t), tEnd, data);
    var tLeft := TimeLeft(tEnd, t);
    if tLeft == 0 {
      return true, TimedOut, g;
    }
    log := w.log;
    late := false;
    ghost var e;
    ready, e := w.SelectFor(tLeft);
    g := AppendedWrite(log, base, g, e, tEnd, data);
  }

  /** The branch of Write that calls send. */
  method SendSome(w: World, buf: array<byte>, len: nat, lenSent: nat, tEnd: nat, ghost base: seq<Event>, ghost h: seq<Event>)
    returns (n: nat, ret: int, netErr: bool, ghost g: seq<Event>)
    requires w.Valid() && len <= buf.Length
    requires w.log == base + h && WriteState(h, tEnd, buf[..len], lenSent) && WriteNext(h, tEnd, buf[..len]) == Offering
    modifies w`log
    ensures w.Valid()
    ensures w.log == base + g && |g| > |h| && WriteState(g, tEnd, buf[..len], n) && g[0] == h[0]
    ensures netErr <==> IsFailure(g[|g| - 1])
    ensures WriteNext(g, tEnd, buf[..len]) == if netErr then Stop else AfterIteration(g, buf[..len])
    ensures ret > 0 <==> LastPositive(g)
  {
    ghost var log := w.log;
    var data := buf[lenSent..len];
    assert data == buf[..len][lenSent..];
    var sent := w.DoSend(data);
    g := AppendedWrite(log, base, h, Send(data, sent), tEnd, buf[..len]);
    n, netErr := lenSent, false;
    match sent {
      case Sent(k) =>
        ret := k;
        n := lenSent + k;
      case SendInterrupted =>
        ret := -1;
      case SendFailed =>
        ret := -1;
        netErr := true;
    }
  }

  /** The loop condition of Write. */
  method TimeRemains(w: World, len: nat, lenSent: nat, tEnd: nat, ghost data: seq<byte>,
                     ghost base: seq<Event>, ghost h: seq<Event>)
    returns (again: bool, ghost g: seq<Event>)
    requires w.Valid() && |data| == len && |h| >= 2
    requires w.log == base + h && WriteState(h, tEnd, data, lenSent)
    requires WriteNext(h, tEnd, data) == AfterIteration(h, data) && !IsFailure(h[|h| - 1])
    modifies w`log
    ensures w.Valid()
    ensures w.log == base + g && WriteState(g, tEnd, data, lenSent) && g[0] == h[0]
    ensures !IsFailure(g[|g| - 1])
    ensures WriteNext(g, tEnd, data) == if again then Reading else Stop
    ensures LastPositive(g) == LastPositive(h)
    ensures again ==> |w.log| > |old(w.log)| && forall hz: nat :: w.Reaches(tEnd, hz) ==> |w.log| <= hz
  {
    g, again := h, false;
    if lenSent < len {
      ghost var log := w.log;
      var t := w.Now();
      g := AppendedWrite(log, base, h, Clock(t), tEnd, data);
      again := TimeLeft(tEnd, t) > 0;
    }
  }

  /** The first half of an iteration: `ret` is what decides whether send is called. */
  method PrepareSend(w: World, lenSent: nat, ret: int, tEnd: nat, ghost data: seq<byte>,
                     ghost base: seq<Event>, ghost h: seq<Event>)
    returns (ret': int, stop: bool, netErr: bool, ghost g: seq<Event>)
    requires w.Valid()
    requires w.log == base + h && WriteState(h, tEnd, data, lenSent) && WriteNext(h, tEnd, data) == Reading
    requires ret > 0 <==> LastPositive(h)
    modifies w`log
    ensures w.Valid()
    ensures w.log == base + g && |g| > |h| && WriteState(g, tEnd, data, lenSent) && g[0] == h[0]
    ensures netErr <==> IsFailure(g[|g| - 1])
    ensures WriteNext(g, tEnd, data) == if stop then Stop else if ret' > 0 then Offering else AfterIteration(g, data)
    ensures !stop ==> !netErr && (ret' > 0 <==> LastPositive(g))
  {
    var late, ready;
    late, ready, g := AwaitWritable(w, tEnd, lenSent, data, base, h);
    ret', stop, netErr := ret, false, false;
    if !late {
      match ready {
        case Ready =>
          ret' := 1;
        case NotSet =>
          ret' := 0;
        case TimedOut =>
          stop := true;
        case SelectInterrupted =>
          ret' := -1;
        case SelectFailed =>
          stop, netErr := true, true;
      }
    }
  }

  /** One iteration of Write's loop, its condition included. */
  method WriteOnce(w: World, buf: array<byte>, len: nat, lenSent: nat, ret: int, tEnd: nat,
                   ghost base: seq<Event>, ghost h: seq<Event>)
    returns (n: nat, ret': int, netErr: bool, again: bool, ghost g: seq<Event>)
    requires w.Valid() && len <= buf.Length
    requires w.log == base + h && WriteState(h, tEnd, buf[..len], lenSent) && WriteNext(h, tEnd, buf[..len]) == Reading
    requires ret > 0 <==> LastPositive(h)
    modifies w`log
    ensures w.Valid()
    ensures w.log == base + g && WriteState(g, tEnd, buf[..len], n) && g[0] == h[0]
    ensures netErr <==> IsFailure(g[|g| - 1])
    ensures WriteNext(g, tEnd, buf[..len]) == if again then Reading else Stop
    ensures again ==> !netErr && (ret' > 0 <==> LastPositive(g))
    ensures again ==> |w.log| > |old(w.log)| && forall hz: nat :: w.Reaches(tEnd, hz) ==> |w.log| <= hz
  {
    var stop;
    n, again := lenSent, false;
    ret', stop, netErr, g := PrepareSend(w, lenSent, ret, tEnd, buf[..len], base, h);
    if stop {
      return;
    }
    // a `continue` in the source arrives here with ret' <= 0
    if ret' > 0 {
      n, ret', netErr, g := SendSome(w, buf, len, lenSent, tEnd, base, g);
      if netErr {
        return;
      }
    }
    again, g := TimeRemains(w, len, n, tEnd, buf[..len], base, g);
  }

  /** The loop of Write. */
  method WriteLoop(w: World, buf: array<byte>, len: nat, now: Millis, tEnd: nat, ghost horizon: nat, ghost base: seq<Event>)
    returns (res: int, ghost h: seq<Event>)
    requires w.Valid() && len <= buf.Length && len < TWO_32
    requires w.Reaches(tEnd, horizon)
    requires w.log == base + [Clock(now)]
    modifies w`log
    ensures w.Valid()
    ensures w.log == base + h && WriteEnded(h, tEnd, buf[..len], res) && h[0] == Clock(now)
  {
    var lenSent: nat := 0;
    var ret := 1;
    h := [Clock(now)];
    Snoc([], Clock(now));
    assert [] + [Clock(now)] == h;
    var netErr, again := false, true;
    while again
      invariant w.Valid()
      invariant w.log == base + h && WriteState(h, tEnd, buf[..len], lenSent) && h[0] == Clock(now)
      invariant netErr <==> IsFailure(h[|h| - 1])
      invariant WriteNext(h, tEnd, buf[..len]) == if again then Reading else Stop
      invariant again ==> (ret > 0 <==> LastPositive(h))
      decreases again, horizon - |w.log|
    {
      lenSent, ret, netErr, again, h := WriteOnce(w, buf, len, lenSent, ret, tEnd, base, h);
    }
    res := if netErr then -1 else Int32(lenSent);
    WriteLaws(h, tEnd, buf[..len]);
  }

  /** HAL_TCP_Write.  It returns as soon as the clock reaches the deadline, whatever select and send do. */
  method Write(w: World, fd: nat, buf: array<byte>, len: nat, timeoutMs: uint32, ghost horizon: nat) returns (res: int)
    requires w.Valid() && len <= buf.Length && len < TWO_32
    requires w.Reaches((w.clock(w.log) + timeoutMs as nat) % TWO_64, horizon)
    modifies w`log
    ensures w.Valid()
    ensures |w.log| > |old(w.log)| && w.log[..|old(w.log)|] == old(w.log)
    ensures fd >= 1024 ==> res == -1 && |w.log| == |old(w.log)| + 1
    ensures fd < 1024 ==>
              var h := w.log[|old(w.log)|..];
              && WriteEnded(h, Deadline(h, timeoutMs), buf[..len], res)
              && (w.Monotone() ==> LateIsLast(h, Deadline(h, timeoutMs)) && (timeoutMs == 0 ==> Sends(h) == 1))
  {
    ghost var base := w.log;
    var now := w.Now();
    var tEnd := (now + timeoutMs as nat) % TWO_64;
    if fd >= FD_SETSIZE {
      return -1;
    }
    ghost var h;
    res, h := WriteLoop(w, buf, len, now, tEnd, horizon, base);
    assert w.log[|base|..] == h;
    assert Deadline(h, timeoutMs) == tEnd;
    if w.Monotone() {
      ForwardWrite(w, base, h, tEnd, buf[..len], timeoutMs);
    }
  }

  /** Write in any lawful environment: the requirements on the world, the clock's included, can be met whatever it is to
      answer. */
  method WriteReplayed(script: seq<Event>, fd: nat, buf: array<byte>, len: nat, timeoutMs: uint32)
    returns (w: World, res: int)
    requires IsLawful(script) && script != [] && script[0].Clock? && len <= buf.Length && len < TWO_32
    ensures fresh(w) && w.Valid() && w.Gives(script) && w.log != []
    ensures RunsForward(script) ==> w.Monotone()
  {
    w := Replay(script, Deadline(script, timeoutMs), |script|);
    res := Write(w, fd, buf, len, timeoutMs, |script|);
  }

  // ----- what the trace says -----

  lemma FirstIsClock(h: seq<Event>, tEnd: nat, data: seq<byte>)
    requires WriteTrace(h, tEnd, data) && h != []
    ensures h[0].Clock?
    ensures |h| > 1 ==> h[1].Clock?
  {
    assert WriteFits(Before(h, 0), h[0], tEnd, data);
    assert |h| > 1 ==> WriteFits(Before(h, 1), h[1], tEnd, data);
  }

  /** Call k is the one that belongs there; if there is none, the loop is over. */
  lemma {:induction false} FollowsAt(h: seq<Event>, tEnd: nat, data: seq<byte>, k: nat)
    requires WriteTrace(h, tEnd, data) && WriteNext(h, tEnd, data) == Stop && k <= |h|
    ensures WriteNext(h[..k], tEnd, data) != Stop ==> k < |h| && WriteFits(h[..k], h[k], tEnd, data)
    ensures WriteNext(h[..k], tEnd, data) == Stop ==> k == |h|
  {
    assert h[..|h|] == h;
    assert k < |h| ==> WriteFits(Before(h, k), h[k], tEnd, data);
  }

  /** Selects wait to the deadline, sends offer the rest and have a reason, nothing follows an end; every select that finds
      the descriptor writable and every late reading that has to is followed by a send. */
  lemma {:induction false} WriteLaws(h: seq<Event>, tEnd: nat, data: seq<byte>)
    requires WriteTrace(h, tEnd, data) && h != [] && WriteNext(h, tEnd, data) == Stop
    ensures WaitsToDeadline(h, tEnd) && OffersTheRest(h, data) && SendsInTurn(h, tEnd) && StopsAtEnd(h)
    ensures SendsWhenReady(h) && SendsWhenLate(h, tEnd)
    ensures Accepted(h) <= data
    ensures IsFailure(h[|h| - 1]) || |Accepted(h)| == |data| || OutOfTime(h[|h| - 1], tEnd)
  {
    FirstIsClock(h, tEnd, data);
    forall k | 0 <= k < |h|
      ensures h[k].Select? ==> WaitsFor(Before(h, k), h[k], tEnd)
      ensures h[k].Send? ==> Offers(Before(h, k), h[k], data) && InTurn(Before(h, k), tEnd)
      ensures NotEnded(Before(h, k)) && !h[k].Recv?
    {
      assert WriteFits(Before(h, k), h[k], tEnd, data);
    }
    AcceptedIsPrefix(h, data);
    forall k | 0 <= k < |h| && h[k].Select? && h[k].ready == Ready
      ensures k + 1 < |h| && h[k + 1].Send?
    {
      ReadyIsSent(h, tEnd, data, k);
    }
    forall k | 0 < k < |h| && h[k].Clock? && h[k].now >= tEnd
      ensures (k + 1 < |h| && h[k + 1].Send?) <==> StartsIteration(h, k, tEnd) && LastPositive(Before(h, k))
    {
      LateIsSent(h, tEnd, data, k);
    }
  }

  lemma {:induction false} ReadyIsSent(h: seq<Event>, tEnd: nat, data: seq<byte>, k: nat)
    requires WriteTrace(h, tEnd, data) && WriteNext(h, tEnd, data) == Stop
    requires k < |h| && h[k].Select? && h[k].ready == Ready
    ensures k + 1 < |h| && h[k + 1].Send?
  {
    FirstIsClock(h, tEnd, data);
    assert h[..k + 1][..k] == h[..k];
    FollowsAt(h, tEnd, data, k + 1);
  }

  /** Which readings are made by the loop condition. */
  lemma {:induction false} AskingAt(h: seq<Event>, tEnd: nat, data: seq<byte>, k: nat)
    requires WriteTrace(h, tEnd, data) && WriteNext(h, tEnd, data) == Stop
    requires 0 < k < |h| && h[k].Clock?
    ensures WriteNext(h[..k], tEnd, data) == if StartsIteration(h, k, tEnd) then Reading else Asking
  {
    FirstIsClock(h, tEnd, data);
    FollowsAt(h, tEnd, data, k);
    if k > 1 {
      assert h[..k][..k - 1] == h[..k - 1];
      FollowsAt(h, tEnd, data, k - 1);
    }
  }

  lemma {:induction false} LateIsSent(h: seq<Event>, tEnd: nat, data: seq<byte>, k: nat)
    requires WriteTrace(h, tEnd, data) && WriteNext(h, tEnd, data) == Stop
    requires 0 < k < |h| && h[k].Clock? && h[k].now >= tEnd
    ensures (k + 1 < |h| && h[k + 1].Send?) <==> StartsIteration(h, k, tEnd) && LastPositive(Before(h, k))
    ensures !StartsIteration(h, k, tEnd) ==> k + 1 == |h|
    ensures k + 1 < |h| && !h[k + 1].Send? ==> h[k + 1].Clock? && !StartsIteration(h, k + 1, tEnd)
  {
    AskingAt(h, tEnd, data, k);
    assert h[..k + 1][..k] == h[..k];
    FollowsAt(h, tEnd, data, k + 1);
  }

  /** With a clock that runs forward, a reading that finds no time left is followed by at most one send and one more
      reading, and by no select. */
  lemma {:induction false} AfterLate(h: seq<Event>, tEnd: nat, data: seq<byte>, k: nat)
    requires WriteTrace(h, tEnd, data) && WriteNext(h, tEnd, data) == Stop && RunsForward(h)
    requires 0 < k < |h| && h[k].Clock? && h[k].now >= tEnd
    ensures |h| <= k + 3 && OneSendAfter(h, k)
  {
    LateIsSent(h, tEnd, data, k);
    if k + 1 < |h| {
      if h[k + 1].Send? {
        AfterSend(h, tEnd, data, k + 1);
        if k + 2 < |h| {
          assert h[k + 2].now >= h[k].now;
          LateIsSent(h, tEnd, data, k + 2);
        }
      } else {
        assert h[k + 1].now >= h[k].now;
        LateIsSent(h, tEnd, data, k + 1);
      }
    }
  }

  /** After a send only the loop condition's reading can follow. */
  lemma {:induction false} AfterSend(h: seq<Event>, tEnd: nat, data: seq<byte>, k: nat)
    requires WriteTrace(h, tEnd, data) && WriteNext(h, tEnd, data) == Stop
    requires 0 < k < |h| && h[k].Send?
    ensures k + 1 < |h| ==> h[k + 1].Clock? && !StartsIteration(h, k + 1, tEnd)
  {
    assert h[..k + 1][..k] == h[..k];
    FollowsAt(h, tEnd, data, k + 1);
  }

  /** With time-out 0 the second reading is late already: one send, and no more. */
  lemma {:induction false} OneSendAtOnce(h: seq<Event>, tEnd: nat, data: seq<byte>)
    requires WriteTrace(h, tEnd, data) && WriteNext(h, tEnd, data) == Stop && RunsForward(h)
    requires h != [] && h[0].Clock? && h[0].now >= tEnd
    ensures Sends(h) == 1
  {
    FirstIsClock(h, tEnd, data);
    FollowsAt(h, tEnd, data, 1);
    assert Before(h, 1) == [h[0]] && LastPositive([h[0]]) == LastPositive([h[0]][..0]);
    assert h[1].now >= h[0].now;
    LateIsSent(h, tEnd, data, 1);
    AfterLate(h, tEnd, data, 1);
    assert h[2].Send? && |h| <= 4 && (|h| == 4 ==> h[3].Clock?);
    OneSend(h);
  }

  lemma {:induction false} OneSend(h: seq<Event>)
    requires 3 <= |h| <= 4 && h[0].Clock? && h[1].Clock? && h[2].Send? && (|h| == 4 ==> h[3].Clock?)
    ensures Sends(h) == 1
  {
    assert h[..1][..0] == [] && h[..2][..1] == h[..1] && h[..3][..2] == h[..2];
    assert Sends(h[..1]) == 0 && Sends(h[..2]) == 0 && Sends(h[..3]) == 1;
    if |h| == 3 {
      assert h[..3] == h;
    }
  }

  lemma {:induction false} ForwardWrite(w: World, base: seq<Event>, h: seq<Event>, tEnd: nat, data: seq<byte>, timeoutMs: uint32)
    requires w.Transfers() && w.Gives(base + h) && w.Monotone()
    requires WriteTrace(h, tEnd, data) && WriteNext(h, tEnd, data) == Stop
    requires h != [] && h[0].Clock? && tEnd == (h[0].now + timeoutMs as nat) % TWO_64
    ensures LateIsLast(h, tEnd) && (timeoutMs == 0 ==> Sends(h) == 1)
  {
    GivesIsLawful(w, base + h);
    assert RunsForward(h) by {
      assert forall k :: 0 <= k < |h| ==> (base + h)[|base| + k] == h[k];
    }
    forall k | 0 < k < |h| && h[k].Clock? && h[k].now >= tEnd
      ensures |h| <= k + 3 && OneSendAfter(h, k)
    {
      AfterLate(h, tEnd, data, k);
    }
    if timeoutMs == 0 {
      OneSendAtOnce(h, tEnd, data);
    }
  }

  /** The k-th send offers what the ones before it left over. */
  lemma SendOffers(h: seq<Event>, data: seq<byte>, k: nat)
    requires OffersTheRest(h, data) && k < |h| && h[k].Send?
    ensures Accepted(h[..k]) + h[k].data == data
  {
    assert Offers(Before(h, k), h[k], data);
    forall j | 0 <= j < k && h[..k][j].Send?
      ensures Offers(Before(h[..k], j), h[..k][j], data)
    {
      assert Before(h[..k], j) == Before(h, j);
    }
    AcceptedIsPrefix(h[..k], data);
  }

  /** The contract leaves no choice: in one world, after one history, there is one run of Write. */
  lemma {:induction false} WriteIsDetermined(w: World, base: seq<Event>, h1: seq<Event>, h2: seq<Event>, timeoutMs: uint32, data: seq<byte>)
    requires w.Gives(base + h1) && w.Gives(base + h2) && h1 != [] && h2 != []
    requires WriteTrace(h1, Deadline(h1, timeoutMs), data) && WriteNext(h1, Deadline(h1, timeoutMs), data) == Stop
    requires WriteTrace(h2, Deadline(h2, timeoutMs), data) && WriteNext(h2, Deadline(h2, timeoutMs), data) == Stop
    ensures h1 == h2
  {
    FirstIsClock(h1, Deadline(h1, timeoutMs), data);
    FirstIsClock(h2, Deadline(h2, timeoutMs), data);
    SameAnswer(w, base, h1, h2, 0);
    var tEnd := Deadline(h1, timeoutMs);
    var n := if |h1| < |h2| then |h1| else |h2|;
    SameStart(w, base, h1, h2, tEnd, data, n);
    if n == |h1| {
      assert h2[..n] == h1;
      FollowsAt(h2, tEnd, data, n);
    } else {
      assert h1[..n] == h2;
      FollowsAt(h1, tEnd, data, n);
    }
  }

  lemma {:induction false} SameStart(w: World, base: seq<Event>, h1: seq<Event>, h2: seq<Event>, tEnd: nat, data: seq<byte>,
                                     k: nat)
    requires w.Gives(base + h1) && w.Gives(base + h2) && k <= |h1| && k <= |h2|
    requires WriteTrace(h1, tEnd, data) && WriteTrace(h2, tEnd, data)
    ensures h1[..k] == h2[..k]
    decreases k
  {
    if k > 0 {
      SameStart(w, base, h1, h2, tEnd, data, k - 1);
      var p := h1[..k - 1];
      SameAnswer(w, base, h1, h2, k - 1);
      assert Before(h1, k - 1) == p == Before(h2, k - 1);
      SameFit(w, base, p, h1[k - 1], h2[k - 1], tEnd, data);
      assert h1[..k] == p + [h1[k - 1]] && h2[..k] == p + [h2[k - 1]];
    }
  }

  lemma SameFit(w: World, base: seq<Event>, p: seq<Event>, e1: Event, e2: Event, tEnd: nat, data: seq<byte>)
    requires WriteFits(p, e1, tEnd, data) && WriteFits(p, e2, tEnd, data)
    requires w.Answers(base + p, e1) && w.Answers(base + p, e2)
    ensures e1 == e2
  {
    if e1.Select? {
      SameWait(p, e1, e2, tEnd);
    }
  }
}
