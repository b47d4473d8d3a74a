/**
 * The request/reply worker of tcp.go as a pure state machine. Each step
 * function maps the worker's owned state (the `tcp` fields the goroutine
 * keeps: state, buffer, stored error, request, response, request time) to
 * its next value and to the responses it hands to the caller. Time is an
 * integer clock; the connection's reads and writes are inputs.
 */
module WorkerSpec {
  import opened Text
  import opened Errors
  import opened Regexp
  import opened Commands
  import opened Responses

  datatype State = Idle | WaitingOnReply | ResponseFormed

  /** The fields of `tcp` that only the worker goroutine touches. */
  datatype Worker = Worker(
    state: State,
    ibuf: GoString,
    err: Option<Error>,
    request: Request,
    response: Response,
    reqTime: int)

  /** The only transitions of the cycle idle -> waitingOnReply -> responseFormed -> idle. */
  function Next(s: State): State
  {
    match s
    case Idle => WaitingOnReply
    case WaitingOnReply => ResponseFormed
    case ResponseFormed => Idle
  }

  /** A primitive step either keeps the state or moves one edge along the cycle. */
  predicate Advances(s: State, t: State)
  {
    t == s || t == Next(s)
  }

  // ---------------------------------------------------------------------
  // checkState

  /** What the checks in checkState conclude about the buffer. */
  datatype Verdict = Unformed | Formed(error: Option<Error>, payload: GoString)

  /**
   * The classification of checkState, in its fixed order: the timeout, then
   * the failure pattern, then the success pattern.
   */
  function Classify(cmd: Command, buf: GoString, elapsed: int): (v: Verdict)
    ensures v.Formed? && v.error.Some? ==>
      v.payload == buf && (v.error == Some(ErrTimeout) || v.error == Some(ErrMatch))
    ensures v.Formed? && v.error.None? ==>
      IsInfix(v.payload, buf) && cmd.response.Find(buf) == Some(v.payload)
    ensures v == Unformed <==>
      elapsed <= cmd.timeout && !cmd.error.Match(buf) && !cmd.response.Match(buf)
  {
    if elapsed > cmd.timeout then Formed(Some(ErrTimeout), buf)
    else if cmd.error.Match(buf) then Formed(Some(ErrMatch), buf)
    else if cmd.response.Match(buf) then
      cmd.response.MatchIffFind(buf);
      Formed(None, cmd.response.Find(buf).value)
    else Unformed
  }

  /** Past the deadline the verdict is a timeout whatever the buffer holds. */
  lemma TimeoutWins(cmd: Command, buf: GoString, elapsed: int)
    requires elapsed > cmd.timeout
    ensures Classify(cmd, buf, elapsed) == Formed(Some(ErrTimeout), buf)
  {
  }

  /** Before the deadline a failure match wins over a success match. */
  lemma FailureBeatsSuccess(cmd: Command, buf: GoString, elapsed: int)
    requires elapsed <= cmd.timeout && cmd.error.Match(buf)
    ensures Classify(cmd, buf, elapsed) == Formed(Some(ErrMatch), buf)
  {
  }

  /** A nil error means exactly: in time, no failure match, and a success
      match whose span is the payload. */
  lemma SuccessIff(cmd: Command, buf: GoString, elapsed: int)
    ensures Classify(cmd, buf, elapsed).Formed? && Classify(cmd, buf, elapsed).error.None? <==>
      elapsed <= cmd.timeout && !cmd.error.Match(buf) && cmd.response.Match(buf)
  {
    cmd.response.MatchIffFind(buf);
  }

  /** Over the same buffer, the verdict depends on the elapsed time only
      through the deadline: it is fixed up to the deadline, a timeout past it,
      and so waiting longer never undoes a verdict. */
  lemma ClassifyStableInTime(cmd: Command, buf: GoString, e1: int, e2: int)
    requires e1 <= e2
    ensures e2 <= cmd.timeout ==> Classify(cmd, buf, e2) == Classify(cmd, buf, e1)
    ensures e2 > cmd.timeout ==> Classify(cmd, buf, e2) == Formed(Some(ErrTimeout), buf)
    ensures Classify(cmd, buf, e1).Formed? ==> Classify(cmd, buf, e2).Formed?
  {
  }

  /** `checkState`: nothing moves unless a reply is awaited; then a verdict
      forms the response, and no verdict only marks it unformed. */
  function CheckStateF(w: Worker, now: int): (w': Worker)
    ensures w'.ibuf == w.ibuf && w'.err == w.err && w'.request == w.request && w'.reqTime == w.reqTime
    ensures Advances(w.state, w'.state)
    ensures w.state == WaitingOnReply ==>
      (w'.state == ResponseFormed <==> Classify(w.request.command, w.ibuf, now - w.reqTime).Formed?)
    ensures var v := Classify(w.request.command, w.ibuf, now - w.reqTime);
      w.state == WaitingOnReply && v.Formed? ==> w'.response == Response(v.payload, v.error, now - w.reqTime)
  {
    if w.state != WaitingOnReply then w
    else
      match Classify(w.request.command, w.ibuf, now - w.reqTime)
      case Unformed =>
        w.(response := w.response.(error := Some(ErrUnformedResponse)))
      case Formed(e, payload) =>
        w.(state := ResponseFormed, response := Response(payload, e, now - w.reqTime))
  }

  lemma CheckStateOnlyWhenWaiting(w: Worker, now: int)
    requires w.state != WaitingOnReply
    ensures CheckStateF(w, now) == w
  {
  }

  /** checkState never touches the buffer, the stored error, the request
      or its time, and moves along the cycle by at most one edge. */
  lemma CheckStateFrame(w: Worker, now: int)
    ensures var w' := CheckStateF(w, now);
      && w'.ibuf == w.ibuf && w'.err == w.err
      && w'.request == w.request && w'.reqTime == w.reqTime
      && Advances(w.state, w'.state)
      && (w'.state == WaitingOnReply ==>
            w'.response == w.response.(error := Some(ErrUnformedResponse)))
      && (w.state == WaitingOnReply && w'.state == ResponseFormed ==>
            w'.response.duration == now - w.reqTime)
  {
  }

  // ---------------------------------------------------------------------
  // handleIncoming

  /** The reply handed back at once to a request that finds the worker busy:
      the stored error if there is one, else ErrBusy. */
  function BusyReply(w: Worker): (r: Response)
    ensures r.bytes == [] && r.error.Some?
    ensures w.err.Some? ==> r.error == w.err
    ensures w.err.None? ==> r.error == Some(ErrBusy)
  {
    ErrorResponse(if w.err.Some? then w.err.value else ErrBusy)
  }

  /**
   * `handleIncoming`: `write` is the result of writing the request's bytes
   * to the connection (nil or the write error). Returns the new worker and
   * the response sent back at once, if any.
   */
  function HandleIncomingF(w: Worker, r: Request, write: Option<Error>, now: int): (res: (Worker, Option<Response>))
    ensures Advances(w.state, res.0.state) && res.0.response == w.response
    ensures res.1.None? <==> w.state == Idle && write.None?
    ensures res.1.Some? ==> res.1.value.bytes == [] && res.1.value.error.Some?
    ensures w.state == Idle ==> res.0.ibuf == []
  {
    if w.state != Idle then
      (w, Some(BusyReply(w)))
    else if write.Some? then
      (w.(ibuf := [], err := write), Some(ErrorResponse(write.value)))
    else
      (w.(ibuf := [], request := r, reqTime := now, state := WaitingOnReply), None)
  }

  /** A busy worker answers at once and keeps everything as it was. */
  lemma HandleIncomingBusy(w: Worker, r: Request, write: Option<Error>, now: int)
    requires w.state != Idle
    ensures var (w', sent) := HandleIncomingF(w, r, write, now);
      && w' == w && sent.Some?
      && sent.value.error == (if w.err.Some? then w.err else Some(ErrBusy))
  {
  }

  /** From idle the buffer is emptied; a failed write is stored and echoed and
      the worker stays idle; a good write arms the wait and answers nothing. */
  lemma HandleIncomingIdle(w: Worker, r: Request, write: Option<Error>, now: int)
    requires w.state == Idle
    ensures var (w', sent) := HandleIncomingF(w, r, write, now);
      && w'.ibuf == []
      && w'.response == w.response
      && (write.Some? ==> w'.state == Idle && w'.err == write && sent == Some(Response([], write, 0))
                          && w'.request == w.request && w'.reqTime == w.reqTime)
      && (write.None? ==> w'.state == WaitingOnReply && w'.request == r && w'.reqTime == now
                          && sent.None? && w'.err == w.err)
  {
  }

  // ---------------------------------------------------------------------
  // sock2ibuf

  /** How `conn.Read` ended: no error, its deadline passed, or another error. */
  datatype ReadError = NoReadError | ReadTimeout | ReadFailed(e: Error)

  /** One `conn.Read` into the 1024-byte scratch slice. */
  datatype Read = Read(data: GoString, err: ReadError)

  const ReadChunk: nat := 1024

  predicate ValidRead(rd: Read)
  {
    |rd.data| <= ReadChunk && (rd.err.ReadFailed? ==> rd.err.e.Transport?)
  }

  /** `sock2ibuf` as written: the bytes are appended, and the stored error
      is cleared whatever the read reported. */
  function Sock2IbufAsWritten(w: Worker, rd: Read): (w': Worker)
    ensures w'.err == None
    ensures w'.ibuf == w.ibuf + rd.data
    ensures w'.state == w.state && w'.request == w.request
    ensures w'.response == w.response && w'.reqTime == w.reqTime
    ensures w' == Sock2IbufF(w, rd).(err := None)
  {
    var e := match rd.err
      case ReadTimeout => None
      case ReadFailed(e) => Some(e)
      case NoReadError => w.err;
    w.(ibuf := w.ibuf + rd.data, err := e).(err := None)
  }

  /** A connection error reported by the read is lost by the code as written. */
  lemma Sock2IbufAsWrittenDropsReadError(w: Worker, data: GoString)
    ensures Sock2IbufAsWritten(w, Read(data, ReadFailed(Transport([])))).err == None
    ensures Sock2IbufF(w, Read(data, ReadFailed(Transport([])))).err == Some(Transport([]))
  {
  }

  /** `sock2ibuf` with the error handling its branches intend: a timed-out read
      clears the stored error, a failed read stores its error, a clean read
      leaves it. */
  function Sock2IbufF(w: Worker, rd: Read): (w': Worker)
    ensures rd.err.ReadFailed? ==> w'.err == Some(rd.err.e)
    ensures rd.err.ReadTimeout? ==> w'.err == None
  {
    w.(ibuf := w.ibuf + rd.data,
       err := match rd.err
         case ReadTimeout => None
         case ReadFailed(e) => Some(e)
         case NoReadError => w.err)
  }

  /** Reading only appends to the buffer and sets the stored error as the
      read reported it; nothing else changes. */
  lemma Sock2IbufAppends(w: Worker, rd: Read)
    ensures var w' := Sock2IbufF(w, rd);
      && w'.ibuf == w.ibuf + rd.data
      && w'.err == (if rd.err.ReadFailed? then Some(rd.err.e)
                    else if rd.err.ReadTimeout? then None else w.err)
      && w'.state == w.state && w'.request == w.request
      && w'.response == w.response && w'.reqTime == w.reqTime
  {
  }

  // ---------------------------------------------------------------------
  // one iteration of runner

  /** What woke the runner (its stop case is the engine's, see TcpEngine). */
  datatype Event =
    | Tick(read: Read)                              // the poll ticker fired
    | Incoming(req: Request, write: Option<Error>)  // a request arrived; `write` is the outcome of writing it

  /** One wake: the event, the clock reading, and whether the caller is ready
      to receive on the response channel at the delivery attempt. */
  datatype Wake = Wake(event: Event, now: int, ready: bool)

  predicate ValidWake(wk: Wake)
  {
    match wk.event
    case Tick(rd) => ValidRead(rd)
    case Incoming(_, write) => write.Some? ==> write.value.Transport?
  }

  /** The event's handler: the worker after it, and what it sent back at once. */
  function OnEvent(w: Worker, wk: Wake): (r: (Worker, seq<Response>))
    ensures Advances(w.state, r.0.state) && r.0.response == w.response
    ensures |r.1| <= 1 && (r.1 != [] ==> wk.event.Incoming?)
    ensures wk.event.Tick? ==> r.0.ibuf == w.ibuf + wk.event.read.data && r.0.state == w.state
  {
    match wk.event
    case Tick(rd) => (Sock2IbufF(w, rd), [])
    case Incoming(r, write) =>
      var (w', sent) := HandleIncomingF(w, r, write, wk.now);
      (w', if sent.Some? then [sent.value] else [])
  }

  /** The non-blocking delivery attempt of a formed response. */
  function Deliver(w: Worker, ready: bool): (r: (Worker, seq<Response>))
    ensures r.1 != [] <==> w.state == ResponseFormed && ready
    ensures r.1 != [] ==> r.1 == [w.response] && r.0.state == Idle
    ensures r.0.ibuf == w.ibuf && r.0.err == w.err && r.0.response == w.response
    ensures r.1 == [] ==> r.0 == w
  {
    if w.state == ResponseFormed && ready then (w.(state := Idle), [w.response])
    else (w, [])
  }

  /** One loop iteration: the event, then checkState, then one delivery attempt. */
  function StepF(w: Worker, wk: Wake): (r: (Worker, seq<Response>))
    ensures |r.1| <= 2
    ensures |r.1| == 2 ==> wk.event.Incoming? && w.state != Idle && r.0.state == Idle
  {
    var (w1, out1) := OnEvent(w, wk);
    var (w2, out2) := Deliver(CheckStateF(w1, wk.now), wk.ready);
    (w2, out1 + out2)
  }

  /** Within one iteration every stage moves along the cycle by at most one
      edge; a formed response is handed over only when the caller is ready,
      and then the worker is idle again. */
  lemma StepFollowsCycle(w: Worker, wk: Wake)
    ensures var w1 := OnEvent(w, wk).0;
      var w2 := CheckStateF(w1, wk.now);
      var w3 := StepF(w, wk).0;
      && Advances(w.state, w1.state) && Advances(w1.state, w2.state) && Advances(w2.state, w3.state)
      && (w2.state == ResponseFormed && !wk.ready ==> w3 == w2)
      && (w2.state == ResponseFormed && wk.ready ==>
            w3 == w2.(state := Idle) && StepF(w, wk).1 == OnEvent(w, wk).1 + [w2.response])
  {
  }

  /** A request that is not yet answered: one while the worker is not idle. */
  function Pending(w: Worker): nat
  {
    if w.state == Idle then 0 else 1
  }

  function RequestsIn(wk: Wake): nat
  {
    if wk.event.Incoming? then 1 else 0
  }

  /** One-in-one-out for a single iteration: the requests that arrive or were
      pending are exactly those answered now or still pending. */
  lemma StepBalance(w: Worker, wk: Wake)
    ensures Pending(w) + RequestsIn(wk) == Pending(StepF(w, wk).0) + |StepF(w, wk).1|
  {
  }

  /** A run of the loop over a sequence of wakes: the final worker and every
      response sent, in order. */
  function Run(w: Worker, wakes: seq<Wake>): (r: (Worker, seq<Response>))
    ensures |r.1| <= Pending(w) + Requests(wakes)
    decreases |wakes|
  {
    if wakes == [] then (w, [])
    else
      StepBalance(w, wakes[0]);
      var (w1, out1) := StepF(w, wakes[0]);
      var (wn, outs) := Run(w1, wakes[1..]);
      (wn, out1 + outs)
  }

  function Requests(wakes: seq<Wake>): nat
    decreases |wakes|
  {
    if wakes == [] then 0 else RequestsIn(wakes[0]) + Requests(wakes[1..])
  }

  /** Over any run, the requests sent equal the responses received plus the
      one still pending: no request is answered twice, and every request but a
      pending one is answered. */
  lemma {:induction false} RunBalance(w: Worker, wakes: seq<Wake>)
    ensures Pending(w) + Requests(wakes) == Pending(Run(w, wakes).0) + |Run(w, wakes).1|
    decreases |wakes|
  {
    if wakes != [] {
      StepBalance(w, wakes[0]);
      RunBalance(StepF(w, wakes[0]).0, wakes[1..]);
    }
  }

  /** Started idle, a run never answers more requests than were sent, and it
      has answered all of them exactly when it is idle again. */
  lemma RunAnswersEachRequestOnce(w: Worker, wakes: seq<Wake>)
    requires w.state == Idle
    ensures |Run(w, wakes).1| <= Requests(wakes)
    ensures |Run(w, wakes).1| == Requests(wakes) <==> Run(w, wakes).0.state == Idle
  {
    RunBalance(w, wakes);
  }

  // ---------------------------------------------------------------------
  // what a formed response is made of

  /**
   * The worker invariant: a stored error came from the connection, and a
   * formed response is the buffer as it was at the verdict (a timeout or a
   * failure match) or a span of it (a success). Bytes appended since then
   * keep it so.
   */
  ghost predicate Inv(w: Worker)
  {
    && (w.err.Some? ==> w.err.value.Transport?)
    && (w.state == ResponseFormed ==>
          || (w.response.error in {Some(ErrTimeout), Some(ErrMatch)} && HasPrefix(w.ibuf, w.response.bytes))
          || (w.response.error.None? && IsInfix(w.response.bytes, w.ibuf)))
  }

  lemma InfixExtend(t: GoString, s: GoString, more: GoString)
    requires IsInfix(t, s)
    ensures IsInfix(t, s + more)
  {
    var i, j :| 0 <= i <= j <= |s| && t == s[i..j];
    assert t == (s + more)[i..j];
  }

  lemma {:induction false} StepPreservesInv(w: Worker, wk: Wake)
    requires Inv(w) && ValidWake(wk)
    ensures Inv(StepF(w, wk).0)
    ensures forall r :: r in StepF(w, wk).1 ==> r.error != Some(ErrUnformedResponse)
  {
    OnEventPreservesInv(w, wk);
    CheckStatePreservesInv(OnEvent(w, wk).0, wk.now);
  }

  lemma OnEventPreservesInv(w: Worker, wk: Wake)
    requires Inv(w) && ValidWake(wk)
    ensures Inv(OnEvent(w, wk).0)
    ensures forall r :: r in OnEvent(w, wk).1 ==> r.error != Some(ErrUnformedResponse)
  {
    if wk.event.Tick? && w.state == ResponseFormed {
      var rd := wk.event.read;
      if w.response.error.None? {
        InfixExtend(w.response.bytes, w.ibuf, rd.data);
      } else {
        assert (w.ibuf + rd.data)[..|w.response.bytes|] == w.ibuf[..|w.response.bytes|];
      }
    }
  }

  lemma CheckStatePreservesInv(w: Worker, now: int)
    requires Inv(w)
    ensures Inv(CheckStateF(w, now))
    ensures CheckStateF(w, now).state == ResponseFormed ==>
      CheckStateF(w, now).response.error != Some(ErrUnformedResponse)
  {
    var w' := CheckStateF(w, now);
    if w.state == WaitingOnReply && w'.state == ResponseFormed && w'.response.error.Some? {
      assert w'.ibuf[..|w'.ibuf|] == w'.ibuf;
    }
  }

  /** Along any run the invariant holds and the internal unformed marker is
      never handed to a caller. */
  lemma {:induction false} RunPreservesInv(w: Worker, wakes: seq<Wake>)
    requires Inv(w) && forall k :: 0 <= k < |wakes| ==> ValidWake(wakes[k])
    ensures Inv(Run(w, wakes).0)
    ensures forall r :: r in Run(w, wakes).1 ==> r.error != Some(ErrUnformedResponse)
    decreases |wakes|
  {
    if wakes != [] {
      StepPreservesInv(w, wakes[0]);
      RunPreservesInv(StepF(w, wakes[0]).0, wakes[1..]);
    }
  }

  // ---------------------------------------------------------------------
  // the loop as written

  /** The event handler with `sock2ibuf` as written: a tick clears the stored
      error whatever the read reported; everything else is as in `OnEvent`. */
  function OnEventAsWritten(w: Worker, wk: Wake): (r: (Worker, seq<Response>))
    ensures wk.event.Tick? ==> r == (OnEvent(w, wk).0.(err := None), [])
    ensures wk.event.Incoming? ==> r == OnEvent(w, wk)
  {
    match wk.event
    case Tick(rd) => (Sock2IbufAsWritten(w, rd), [])
    case Incoming(_, _) => OnEvent(w, wk)
  }

  /** One loop iteration as written: the event, then checkState, then one
      delivery attempt. */
  function StepAsWritten(w: Worker, wk: Wake): (r: (Worker, seq<Response>))
    ensures r.1 == StepF(w, wk).1
    ensures r.0 == StepF(w, wk).0.(err := r.0.err)
  {
    var (w1, out1) := OnEventAsWritten(w, wk);
    var (w2, out2) := Deliver(CheckStateF(w1, wk.now), wk.ready);
    (w2, out1 + out2)
  }

  function RunAsWritten(w: Worker, wakes: seq<Wake>): (Worker, seq<Response>)
    decreases |wakes|
  {
    if wakes == [] then (w, [])
    else
      var (w1, out1) := StepAsWritten(w, wakes[0]);
      var (wn, outs) := RunAsWritten(w1, wakes[1..]);
      (wn, out1 + outs)
  }

  /** The code as written keeps the one-in-one-out balance over any run. */
  lemma {:induction false} RunAsWrittenBalance(w: Worker, wakes: seq<Wake>)
    ensures Pending(w) + Requests(wakes) == Pending(RunAsWritten(w, wakes).0) + |RunAsWritten(w, wakes).1|
    decreases |wakes|
  {
    if wakes != [] {
      StepBalance(w, wakes[0]);
      RunAsWrittenBalance(StepAsWritten(w, wakes[0]).0, wakes[1..]);
    }
  }

  lemma StepAsWrittenPreservesInv(w: Worker, wk: Wake)
    requires Inv(w) && ValidWake(wk)
    ensures Inv(StepAsWritten(w, wk).0)
    ensures forall r :: r in StepAsWritten(w, wk).1 ==> r.error != Some(ErrUnformedResponse)
  {
    OnEventPreservesInv(w, wk);
    var w1 := OnEventAsWritten(w, wk).0;
    assert Inv(w1);
    CheckStatePreservesInv(w1, wk.now);
  }

  /** The code as written keeps the worker invariant along any run, and never
      hands the unformed marker to a caller. */
  lemma {:induction false} RunAsWrittenPreservesInv(w: Worker, wakes: seq<Wake>)
    requires Inv(w) && forall k :: 0 <= k < |wakes| ==> ValidWake(wakes[k])
    ensures Inv(RunAsWritten(w, wakes).0)
    ensures forall r :: r in RunAsWritten(w, wakes).1 ==> r.error != Some(ErrUnformedResponse)
    decreases |wakes|
  {
    if wakes != [] {
      StepAsWrittenPreservesInv(w, wakes[0]);
      RunAsWrittenPreservesInv(StepAsWritten(w, wakes[0]).0, wakes[1..]);
    }
  }

  /** Where the two loops part: a read fails while a reply is awaited, then a
      second request arrives. As written the caller is told only ErrBusy; with
      the read error kept it is told the connection error. */
  lemma AsWrittenHidesReadErrorFromBusyReply(w: Worker, req: Request, e: GoString, now: int)
    requires w.state == WaitingOnReply && w.request.command.timeout >= now - w.reqTime
    requires !w.request.command.error.Match(w.ibuf) && !w.request.command.response.Match(w.ibuf)
    ensures var tick := Wake(Tick(Read([], ReadFailed(Transport(e)))), now, false);
      var busy := Wake(Incoming(req, None), now, false);
      && RunAsWritten(w, [tick, busy]).1 == [ErrorResponse(ErrBusy)]
      && Run(w, [tick, busy]).1 == [ErrorResponse(Transport(e))]
  {
    var tick := Wake(Tick(Read([], ReadFailed(Transport(e)))), now, false);
    var busy := Wake(Incoming(req, None), now, false);
    assert w.ibuf + [] == w.ibuf;
    assert [tick, busy][1..] == [busy];
    var c := w.request.command;
    assert Classify(c, w.ibuf, now - w.reqTime) == Unformed;
    var a1 := StepAsWritten(w, tick).0;
    assert a1.state == WaitingOnReply && a1.err == None;
    assert StepAsWritten(a1, busy).1 == [ErrorResponse(ErrBusy)];
    var f1 := StepF(w, tick).0;
    assert f1.state == WaitingOnReply && f1.err == Some(Transport(e));
    assert StepF(f1, busy).1 == [ErrorResponse(Transport(e))];
    assert StepAsWritten(w, tick).1 == [] && StepF(w, tick).1 == [];
    assert RunAsWritten(a1, [busy]).1 == StepAsWritten(a1, busy).1 + RunAsWritten(StepAsWritten(a1, busy).0, []).1;
    assert Run(f1, [busy]).1 == StepF(f1, busy).1 + Run(StepF(f1, busy).0, []).1;
  }
}
