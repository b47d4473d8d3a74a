/**
 * The engine over one TCP connection (tcp.go). The class holds the fields of
 * the Go struct; its methods update them in place as the goroutine and the
 * public methods do. The worker's steps (CheckState, HandleIncoming,
 * Sock2Ibuf, RunnerStep) are proved against the pure step functions of
 * WorkerSpec; Stop, Close, Dial and Control carry contracts of their own. Channels become returned responses, the connection's results
 * become parameters, and the clock is an integer.
 */
module TcpEngine {
  import opened Text
  import opened Errors
  import opened Regexp
  import opened Commands
  import opened Responses
  import opened WorkerSpec

  /** What `Control` does with a call: answer at once, or hand the request to
      the worker and wait for its response. */
  datatype Dispatch = Reply(response: Response) | Send(request: Request)

  /** The result of `Dial`: its returned error, or the panic it raises when the
      ping command cannot be formatted without arguments. */
  datatype DialOutcome = Dialled(err: Option<Error>) | Panicked

  /** Number of pings `Dial` sends. */
  const PingAttempts: nat := 3

  /** A pattern that matches nothing: what an unset command checks against. */
  const NeverMatches: Regex := Regex([], (_: GoString) => None)

  /** The request of a fresh engine, before any was received. */
  const NoRequest: Request :=
    Request(Command([], 0, [], NeverMatches, NeverMatches, NeverMatches, []), [])

  /** The error of the first response that has one, or nil if none has. */
  function FirstError(rs: seq<Response>): (r: Option<Error>)
    ensures r.None? <==> forall i :: 0 <= i < |rs| ==> rs[i].error.None?
    ensures r.Some? ==>
      exists i :: 0 <= i < |rs| && rs[i].error == r && forall j :: 0 <= j < i ==> rs[j].error.None?
    decreases |rs|
  {
    if rs == [] then None
    else if rs[0].error.Some? then rs[0].error
    else
      var r := FirstError(rs[1..]);
      FirstErrorShift(rs, r);
      r
  }

  lemma FirstErrorShift(rs: seq<Response>, r: Option<Error>)
    requires rs != [] && rs[0].error.None?
    requires r.Some? ==> exists i :: 0 <= i < |rs[1..]| && rs[1..][i].error == r
                                && forall j :: 0 <= j < i ==> rs[1..][j].error.None?
    ensures r.Some? ==>
      exists i :: 0 <= i < |rs| && rs[i].error == r && forall j :: 0 <= j < i ==> rs[j].error.None?
  {
    if r.Some? {
      var i :| 0 <= i < |rs[1..]| && rs[1..][i].error == r
               && forall j :: 0 <= j < i ==> rs[1..][j].error.None?;
      assert rs[i + 1].error == r;
      assert forall j :: 0 <= j < i + 1 ==> rs[j].error.None? by {
        forall j | 0 <= j < i + 1 ensures rs[j].error.None? {
          if j > 0 {
            assert rs[j] == rs[1..][j - 1];
          }
        }
      }
    }
  }

  class Tcp {
    var alive: bool
    var addr: GoString
    // owned by the worker goroutine
    var ibuf: GoString
    var request: Request
    var response: Response
    var reqTime: int
    var state: State
    var err: Option<Error>

    /** The worker's fields as a value. */
    ghost function Model(): Worker
      reads this
    {
      Worker(state, ibuf, err, request, response, reqTime)
    }

    /** `new(tcp)`: every field at its zero value. */
    constructor ()
      ensures !alive && addr == []
      ensures Model() == Worker(Idle, [], None, NoRequest, ZeroResponse, 0)
    {
      alive := false;
      addr := [];
      ibuf := [];
      request := NoRequest;
      response := ZeroResponse;
      reqTime := 0;
      state := Idle;
      err := None;
    }

    /** `checkState`: classify the buffer if a reply is awaited. */
    method CheckState(now: int) returns (resp: Response, st: State)
      modifies this
      ensures Model() == CheckStateF(old(Model()), now)
      ensures resp == response && st == state
      ensures alive == old(alive) && addr == old(addr)
    {
      if state == WaitingOnReply {
        response := response.(error := Some(ErrUnformedResponse));
        var cmd := request.command;
        if now - reqTime > cmd.timeout {
          response := Response(ibuf, Some(ErrTimeout), now - reqTime);
          state := ResponseFormed;
          return response, state;
        }
        if cmd.error.Match(ibuf) {
          response := Response(ibuf, Some(ErrMatch), now - reqTime);
          state := ResponseFormed;
          return response, state;
        }
        if cmd.response.Match(ibuf) {
          cmd.response.MatchIffFind(ibuf);
          response := Response(cmd.response.Find(ibuf).value, None, now - reqTime);
          state := ResponseFormed;
          return response, state;
        }
      }
      return response, state;
    }

    /** `handleIncoming`: `write` is what writing the request's bytes to the
        connection returned. The result is the response sent back at once. */
    method HandleIncoming(r: Request, write: Option<Error>, now: int) returns (sent: Option<Response>)
      modifies this
      ensures (Model(), sent) == HandleIncomingF(old(Model()), r, write, now)
      ensures alive == old(alive) && addr == old(addr)
    {
      if state != Idle {
        var resp := ErrorResponse(ErrBusy);
        if err.Some? {
          resp := resp.(error := err);
        }
        return Some(resp);
      }
      ibuf := [];
      if write.Some? {
        err := write;
        return Some(ErrorResponse(write.value));
      }
      request := r;
      reqTime := now;
      state := WaitingOnReply;
      return None;
    }

    /** `sock2ibuf`, with the read's error kept as its branches intend (the
        code as written clears it afterwards, see Sock2IbufAsWritten). */
    method Sock2Ibuf(rd: Read)
      requires ValidRead(rd)
      modifies this
      ensures Model() == Sock2IbufF(old(Model()), rd)
      ensures alive == old(alive) && addr == old(addr)
    {
      ibuf := ibuf + rd.data;
      match rd.err {
        case ReadTimeout => err := None;
        case ReadFailed(e) => err := Some(e);
        case NoReadError =>
      }
    }

    /** One iteration of `runner` for a tick or a request: handle the event,
        check the state, and try once to deliver a formed response. */
    method RunnerStep(wk: Wake) returns (out: seq<Response>)
      requires ValidWake(wk)
      modifies this
      ensures (Model(), out) == StepF(old(Model()), wk)
      ensures Inv(old(Model())) ==> Inv(Model())
      ensures alive == old(alive) && addr == old(addr)
    {
      ghost var w0 := Model();
      out := [];
      match wk.event {
        case Tick(rd) =>
          Sock2Ibuf(rd);
        case Incoming(r, write) =>
          var sent := HandleIncoming(r, write, wk.now);
          if sent.Some? {
            out := [sent.value];
          }
      }
      assert (Model(), out) == OnEvent(w0, wk);
      var _, _ := CheckState(wk.now);
      assert Model() == CheckStateF(OnEvent(w0, wk).0, wk.now);
      ghost var w2, out1 := Model(), out;
      if state == ResponseFormed {
        if wk.ready {
          out := out + [response];
          state := Idle;
        }
      }
      assert Model() == Deliver(w2, wk.ready).0 && out == out1 + Deliver(w2, wk.ready).1;
      if Inv(w0) {
        StepPreservesInv(w0, wk);
      }
    }

    /** The stop case of `runner`: the worker marks the engine dead and
        acknowledges with a nil error. */
    method Stop() returns (ack: Option<Error>)
      modifies this`alive
      ensures !alive && ack == None
    {
      alive := false;
      return None;
    }

    /** `Control`: refuse when not running, short-circuit a formatting error,
        otherwise send the formatted request to the worker. */
    function Control(cmd: Command, sprintf: Formatter, args: seq<Arg>): (d: Dispatch)
      reads this
      ensures !alive ==> d == Reply(ErrorResponse(ErrNotConnected))
      ensures alive && Bytes(cmd, sprintf, args).err.Some? ==>
        d == Reply(ErrorResponse(Bytes(cmd, sprintf, args).err.value))
      ensures d.Send? <==> alive && Bytes(cmd, sprintf, args).err.None?
      ensures d.Send? ==> d.request == Request(cmd, sprintf(cmd.prototype, args))
    {
      if !alive then Reply(ErrorResponse(ErrNotConnected))
      else
        var enc := Bytes(cmd, sprintf, args);
        if enc.err.Some? then Reply(ErrorResponse(enc.err.value))
        else Send(Request(cmd, enc.bytes))
    }

    /** `Close`: nothing to do when not running; otherwise stop the worker and
        wait for its acknowledgement, which `ackInTime` says arrived within the
        40 ms grace period or not. */
    method Close(ackInTime: bool) returns (e: Option<Error>)
      modifies this`alive
      ensures !old(alive) ==> e == None && !alive
      ensures old(alive) ==> !alive && e == (if ackInTime then None else Some(ErrTimeout))
    {
      if alive {
        var ack := Stop();
        if !ackInTime {
          return Some(ErrTimeout);
        }
        return ack;
      }
      return None;
    }

    /**
     * `Dial`: `dialErr` is what `net.DialTimeout` returned and `replies` the
     * worker's responses to the pings, in order. What the worker does to
     * the stored error while it answers them is its own step, not modelled here.
     */
    method Dial(address: GoString, dialErr: Option<Error>, ping: Command, sprintf: Formatter,
                replies: seq<Response>) returns (res: DialOutcome)
      requires |replies| == PingAttempts
      modifies this`addr, this`err, this`alive
      ensures addr == address
      ensures dialErr.Some? || Bytes(ping, sprintf, []).err.Some? ==> err == dialErr
      ensures dialErr.Some? ==> res == Dialled(dialErr) && alive == old(alive)
      ensures dialErr.None? && Bytes(ping, sprintf, []).err.Some? ==> res == Panicked && alive
      ensures dialErr.None? && Bytes(ping, sprintf, []).err.None? ==>
        res == Dialled(FirstError(replies)) && alive == FirstError(replies).None?
    {
      addr := address;
      err := dialErr;
      if dialErr.Some? {
        return Dialled(dialErr);
      }
      alive := true;
      var enc := Bytes(ping, sprintf, []);
      if enc.err.Some? {
        return Panicked;
      }
      var i := 0;
      while i < PingAttempts
        invariant 0 <= i <= PingAttempts
        invariant alive && addr == address
        invariant forall j :: 0 <= j < i ==> replies[j].error.None?
      {
        var resp := match Control(ping, sprintf, [])
          case Reply(r) => r
          case Send(_) => replies[i];
        if resp.error.Some? {
          var _ := Stop();
          return Dialled(resp.error);
        }
        i := i + 1;
      }
      return Dialled(None);
    }
  }

  /** Control's decision never depends on anything but the running flag, the
      command and the arguments: a request reaches the worker only once its
      bytes have passed both checks of Bytes. */
  lemma ControlSendsOnlyValidBytes(t: Tcp, cmd: Command, sprintf: Formatter, args: seq<Arg>)
    requires t.Control(cmd, sprintf, args).Send?
    ensures var b := t.Control(cmd, sprintf, args).request.bytes;
      t.alive && !Contains(b, BadVerb) && cmd.commandRegexp.Match(b)
  {
  }

  /** A dial to an unreachable address fails with the transport error, and the
      engine it leaves behind refuses commands as not connected. */
  method DialUnreachable(reason: GoString, ping: Command, sprintf: Formatter)
    returns (res: DialOutcome, d: Dispatch)
    ensures res == Dialled(Some(Transport(reason)))
    ensures d == Reply(ErrorResponse(ErrNotConnected))
  {
    var t := new Tcp();
    res := t.Dial([], Some(Transport(reason)), ping, sprintf, [ZeroResponse, ZeroResponse, ZeroResponse]);
    d := t.Control(ping, sprintf, []);
  }

  /** Closing a never-dialled engine returns nil; after a good dial a close
      acknowledged in time returns nil, and so does a second close. */
  method CloseTwice(ping: Command, sprintf: Formatter, replies: seq<Response>)
    returns (e0: Option<Error>, e1: Option<Error>, e2: Option<Error>)
    requires |replies| == PingAttempts && forall i :: 0 <= i < |replies| ==> replies[i].error.None?
    requires Bytes(ping, sprintf, []).err.None?
    ensures e0 == None && e1 == None && e2 == None
  {
    var t := new Tcp();
    e0 := t.Close(true);
    var res := t.Dial([], None, ping, sprintf, replies);
    assert t.alive;
    e1 := t.Close(true);
    e2 := t.Close(false);
  }
}
