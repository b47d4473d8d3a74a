# go.arbiter worker, modelled in Dafny

go.arbiter is a command/response engine for byte streams in Go. It talks to
hardware devices over TCP. A command is a printf-style prototype with a
validation pattern, a success pattern and a failure pattern. `Control`
formats the command and hands it to a background worker. The worker writes
the bytes and polls the connection into a buffer. On every wake it
classifies the buffer in a fixed order: timeout first, then the failure
pattern, then the success pattern. It hands one response back over a
channel.

This project models:
- the worker of `tcp.go`: its three-valued state machine, `checkState`,
  `handleIncoming`, `sock2ibuf` and one iteration of `runner`;
- the decision logic of `Dial`, `Control` and `Close`;
- from `command.go`: the `Bytes` validator, the `sanitize` helper inside
  `Command.String`, and `Commands.JSONLabels`.

Modules:
- `Text` (text.dfy): Go strings as byte sequences, `strings.Contains`.
- `Regexp` (regexp.dfy): an abstract `*regexp.Regexp`. It has the pattern's
  source and a `locate` function for the leftmost match. `Find` is the
  matched span of the subject and `Match` holds exactly when `Find` has one.
- `Errors` (errors.dfy): the sentinel errors, plus transport errors passed
  through. A nil Go `error` is `None`.
- `Commands` (commands.dfy): `Command`, `Bytes`, `Sanitize`, `JSONLabels`.
  `fmt.Sprintf` and `%q` are function parameters.
- `Responses` (response.dfy): the `Response` and `request` envelopes.
- `WorkerSpec` (worker_spec.dfy): the worker as a pure state machine. It
  holds the step functions, the lemmas about them, and whole-run
  properties:
  - no request gets more than one reply, and every request but one still
    pending is answered;
  - the internal "unformed" marker never reaches a caller.
- `TcpEngine` (tcp_engine.dfy): class `Tcp` with the fields of the Go
  struct. Its methods change these fields in place. The worker's steps
  `CheckState`, `HandleIncoming`, `Sock2Ibuf` and `RunnerStep` are each
  proved against the `WorkerSpec` function for the same step. `Stop`,
  `Close`, `Dial` and `Control` carry contracts of their own.
  `Sock2Ibuf` and `RunnerStep` embed the corrected read-error handling
  described under Findings. `WorkerSpec` models the loop as written beside
  it (`OnEventAsWritten`, `StepAsWritten`, `RunAsWritten`) and proves the
  balance and the invariant for both.

Integer clock: time is an integer passed in. One reading per wake serves
both the request time in `handleIncoming` and the elapsed time in
`checkState`. Connection results become inputs:
- `net.DialTimeout` gives `dialErr`;
- `conn.Write` gives `write`;
- `conn.Read` gives a `Read` value: its bytes and how it ended.

Whether the caller is ready at the runner's non-blocking send is a boolean
input.

## Model

| member | source | states |
|---|---|---|
| `Regexp.Regex.Find` | tcp.go:179 | The success payload is a contiguous piece of the buffer. |
| `Regexp.Regex.MatchIffFind` | tcp.go:178-179 | `Match` holds exactly when `Find` yields a span, so the success branch always has a payload. |
| `Text.ContainsIffInfix` | command.go:100 | `strings.Contains` holds exactly when the pattern occurs somewhere in the text. |
| `Commands.Bytes` | command.go:98-111 | The bytes are always the formatted text. The error is `ErrBytesArgs` exactly when the text holds `%!`. It is `ErrBytesFormat` exactly when there is no `%!` and the validation pattern fails. It is nil exactly when there is no `%!` and the pattern matches. |
| `Commands.BytesArgsIgnoresCommandRegexp` | command.go:100-102 | When the text holds `%!`, the validation pattern is never consulted: changing it does not change the result. |
| `Commands.BytesErrorKinds` | command.go:91-97 | `Bytes` reports no error other than nil, `ErrBytesArgs` and `ErrBytesFormat`. |
| `Commands.ReplaceAll` | command.go:77 | Replacing each occurrence of one byte removes that byte unless the replacement holds it. It adds no bytes foreign to the input and the replacement. Without the byte, the text is unchanged. |
| `Commands.EscapeLineBreaks` | command.go:77 | The two nested replacements leave no raw CR or LF. |
| `Commands.Sanitize` | command.go:66-78 | A nil regexp prints as `nil`. Any other value prints without raw CR or LF. Text without line breaks is printed as it is (a regexp's source for a regexp). In general the text is escaped byte by byte (`EscapeEach`). A value of any other type prints empty. |
| `Commands.EscapeLineBreaksIsBytewise` | command.go:77 | Escaping CR and then LF is the same as escaping byte by byte: CR becomes `\r`, LF becomes `\n`, every other byte stays, in order. |
| `Commands.EscapeLineBreaksLength` | command.go:77 | Escaping adds exactly one byte per CR and per LF. |
| `Commands.JSONLabels` | command.go:125-139 | The loop with its counter builds `LabelArray` for the iteration order: `[`, the quoted keys in iteration order with a comma between neighbours, then `]`. It starts with `[` and ends with `]`. An empty map gives `[]`. |
| `Commands.Join` | command.go:129-135 | Joining no labels gives nothing, one label gives itself, and a join starts with its first label. |
| `Commands.QuotedAll` | command.go:135 | There is exactly one label per key, and the label at each position is the `%q` form of the key at that position in iteration order. |
| `Commands.LabelArray` | command.go:126-137 | The array text starts with `[` and ends with `]`. It is `[]` for no keys, and otherwise the first quoted key follows the `[`. |
| `Commands.JoinSnoc` | command.go:129-135 | Appending a label adds a comma only when a label came before, as the counter `i` decides. |
| `Commands.JoinCommaCount` | command.go:126-138 | n comma-free labels are joined with exactly n-1 commas. |
| `Commands.SplitJoin` | command.go:126-138 | Splitting the joined labels at the commas gives the labels back. |
| `Commands.JSONLabelsShape` | command.go:125-139 | When no quoted label holds a comma, the text between the brackets splits into exactly one quoted label per key, in order, with n-1 commas in all. An empty map gives `[]`. |
| `WorkerSpec.Classify` | tcp.go:157-186 | An error verdict carries the whole buffer and is `ErrTimeout` or `ErrMatch`. A nil-error verdict carries exactly `Find` of the success pattern, a piece of the buffer. There is no verdict exactly when time is left and neither pattern matches. |
| `WorkerSpec.TimeoutWins` | tcp.go:168-171 | Past the deadline the verdict is `ErrTimeout` with the whole buffer, whatever the patterns say. |
| `WorkerSpec.FailureBeatsSuccess` | tcp.go:173-176 | Before the deadline, a failure match gives `ErrMatch` with the whole buffer, even if the success pattern also matches. |
| `WorkerSpec.SuccessIff` | tcp.go:178-181 | The verdict has a nil error exactly when time is left, the failure pattern does not match and the success pattern does. |
| `WorkerSpec.ClassifyStableInTime` | tcp.go:168-181 | Over the same buffer, the verdict is the same at every time up to the deadline. Past the deadline it is `ErrTimeout` with the whole buffer. So once some verdict is formed, some verdict is formed at every later time. |
| `WorkerSpec.CheckStateF` | tcp.go:157-186 | checkState keeps the buffer, the stored error, the request and its time, and moves at most one edge along the cycle. From `waitingOnReply` it forms the response exactly when `Classify` gives a verdict. The formed response carries `Classify`'s error and payload, with the elapsed time as its duration. |
| `WorkerSpec.CheckStateOnlyWhenWaiting` | tcp.go:158-185 | Outside `waitingOnReply`, checkState changes nothing. |
| `WorkerSpec.CheckStateFrame` | tcp.go:157-186 | checkState never changes the buffer, the stored error, the request or its time. It moves at most one edge along the cycle. With no verdict, it only marks the response unformed. A formed response has the elapsed time as its duration. |
| `WorkerSpec.BusyReply` | tcp.go:190-193 | The reply to a busy worker has no bytes and never a nil error. It is the stored error if there is one, `ErrBusy` otherwise. |
| `Responses.ErrorResponse` | tcp.go:126-133 | A response built from an error alone is never the zero response, so a caller can always tell it from a success. It has no bytes and zero duration. |
| `WorkerSpec.HandleIncomingF` | tcp.go:188-206 | handleIncoming moves at most one edge along the cycle and leaves the formed response alone. It answers at once exactly when the worker is busy or the write failed, and that answer is an error with no bytes. From idle it empties the buffer. |
| `WorkerSpec.HandleIncomingBusy` | tcp.go:189-196 | A request that finds the worker not idle is answered at once, with the stored error if there is one and `ErrBusy` otherwise. The worker's state is untouched. |
| `WorkerSpec.HandleIncomingIdle` | tcp.go:197-205 | From idle the buffer is emptied and the response is untouched. A failed write is stored and sent back, and the worker stays idle with its old request. A good write records the request and its time, moves to `waitingOnReply` and sends nothing. |
| `WorkerSpec.Sock2IbufAsWritten` | tcp.go:142-154 | As written, the read bytes are appended to the buffer and the stored error is nil after every read. State, request, response and request time are kept. The result is the corrected `Sock2IbufF` with the error cleared. |
| `WorkerSpec.Sock2IbufAsWrittenDropsReadError` | tcp.go:148-153 | A read that fails with a connection error leaves no stored error as written. The corrected version stores it. |
| `WorkerSpec.Sock2IbufF` | tcp.go:147-152 | A failed read stores its error. A timed-out read clears the stored error. |
| `WorkerSpec.Sock2IbufAppends` | tcp.go:147-152 | The new buffer is the old buffer followed by the bytes read. Only the stored error may change besides, as the read reported it. |
| `WorkerSpec.OnEvent` | tcp.go:231-235 | The event moves at most one edge along the cycle and never touches the formed response. It sends at most one reply, and only for a request. A tick appends the read bytes and keeps the state. |
| `WorkerSpec.Deliver` | tcp.go:243-250 | A reply is handed over exactly when a response is formed and the caller is ready. It is the formed response, and the worker is idle again. Without a hand-over nothing changes. |
| `WorkerSpec.StepF` | tcp.go:230-251 | One iteration, with the corrected `sock2ibuf` of Findings, sends at most two replies. Two only when a request meets a busy worker whose formed response is also handed over, leaving it idle. |
| `WorkerSpec.Run` | tcp.go:230-251 | A run never sends more replies than the pending request plus the requests received. |
| `WorkerSpec.StepFollowsCycle` | tcp.go:230-251 | In one iteration every stage, from the event through checkState to the delivery attempt, moves at most one edge along idle, waitingOnReply, responseFormed, idle. A formed response stays formed when the caller is not ready. It is handed over, and the worker is idle again, when the caller is ready. |
| `WorkerSpec.StepBalance` | tcp.go:230-251 | In one iteration, the pending request plus the arriving one equal the responses sent plus the one still pending. |
| `WorkerSpec.RunBalance` | tcp.go:230-251 | Over any run, the pending request plus the requests received equal the responses sent plus the one still pending. |
| `WorkerSpec.RunAnswersEachRequestOnce` | tcp.go:230-251 | A run started idle never sends more responses than it received requests. It has answered them all exactly when it is idle. |
| `WorkerSpec.StepPreservesInv` | tcp.go:161-181 | An iteration keeps two things true. A stored error is a transport error. A formed response is the buffer as it was at the verdict (timeout or failure), or a span of it (success). No response sent carries the unformed marker. |
| `WorkerSpec.RunPreservesInv` | tcp.go:230-251 | Along any run the invariant holds, and `errUnformedResponse` never reaches a caller. |
| `WorkerSpec.OnEventAsWritten` | tcp.go:231-235 | The event handler with `sock2ibuf` as written: a tick is the corrected tick with the stored error cleared; a request is handled as in `OnEvent`. |
| `WorkerSpec.StepAsWritten` | tcp.go:230-251 | One iteration as written sends the same replies as the corrected one, and ends in the same worker but for the stored error. |
| `WorkerSpec.RunAsWrittenBalance` | tcp.go:230-251 | As written too, over any run the pending request plus the requests received equal the responses sent plus the one still pending. |
| `WorkerSpec.StepAsWrittenPreservesInv` | tcp.go:230-251 | An iteration as written keeps the worker invariant and never sends the unformed marker. |
| `WorkerSpec.RunAsWrittenPreservesInv` | tcp.go:230-251 | Along any run as written the invariant holds, and `errUnformedResponse` never reaches a caller. |
| `WorkerSpec.AsWrittenHidesReadErrorFromBusyReply` | tcp.go:148-153 | While a reply is awaited and nothing matches yet, a failed read and then a second request: as written the second caller gets `ErrBusy`, with the corrected read it gets the connection error. |
| `TcpEngine.FirstError` | tcp.go:106-112 | The result is nil exactly when every ping reply has a nil error. Otherwise it is the error of the first reply that has one. |
| `TcpEngine.Tcp.constructor` | tcp.go:42-60 | A new engine is not alive, idle, with an empty buffer and no stored error. |
| `TcpEngine.Tcp.CheckState` | tcp.go:157-186 | The new worker fields are `CheckStateF` of the old ones. It returns the new response and state. |
| `TcpEngine.Tcp.HandleIncoming` | tcp.go:188-206 | The new fields and the response sent back are those of `HandleIncomingF`. |
| `TcpEngine.Tcp.Sock2Ibuf` | tcp.go:142-154 | The new fields are `Sock2IbufF` of the old ones, the corrected error handling (see Findings). |
| `TcpEngine.Tcp.RunnerStep` | tcp.go:230-251 | The new fields and the responses sent are `StepF` of the old ones, so the iteration has the corrected read-error handling of Findings. The worker invariant is kept. |
| `TcpEngine.Tcp.Stop` | tcp.go:236-239 | The engine is no longer alive, and the acknowledgement is nil. |
| `TcpEngine.Tcp.Control` | tcp.go:124-138 | On an engine that is not alive: `ErrNotConnected`, nothing sent. A `Bytes` error is returned without sending. Otherwise, exactly then, the request with the formatted bytes goes to the worker. |
| `TcpEngine.ControlSendsOnlyValidBytes` | tcp.go:128-135 | A request reaches the worker only from a live engine, and only bytes with no `%!` that match the validation pattern. |
| `TcpEngine.Tcp.Close` | tcp.go:69-83 | Not alive: nil. Otherwise the worker is stopped. A missing acknowledgement gives `ErrTimeout`; otherwise the worker's nil acknowledgement is returned. |
| `TcpEngine.Tcp.Dial` | tcp.go:88-114 | The address is stored. A dial error is stored and returned. A ping command that needs arguments panics, with the worker running. Otherwise the result is the first ping reply's error, or nil. The engine stays alive exactly when all three pings succeeded. |
| `TcpEngine.DialUnreachable` | tcp.go:88-93 | A failed dial returns the transport error. `Control` on the engine it leaves then answers `ErrNotConnected`. |
| `TcpEngine.CloseTwice` | tcp.go:69-83 | Close on a never-dialled engine returns nil. After a good dial, a close acknowledged in time returns nil, and a second close returns nil too. |

## Left out

- Socket I/O (`net.DialTimeout`, `conn.Write`, `conn.Read`, `SetReadDeadline`) is not executed. Their results are inputs; the 1024-byte read slice is the bound in `ValidRead`.
- Goroutines, channels, `select` and the poll ticker are not modelled as concurrency. `runner` is one iteration per call (`RunnerStep`), and its stop case is `Stop`. A blocking send on the response channel becomes a returned response. The receiver's readiness at the non-blocking send is an input.
- The caller's wait for the worker's reply in `Control` is the `Send` outcome; the reply itself comes from later runner iterations.
- `TcpEngine.Tcp.Dial`: the responses to its pings are inputs. The model does not run the worker iterations that produce them, so it says nothing of the worker's fields after a successful dial. In particular the stored error after the pings is not stated: a ping whose write fails stores that error (tcp.go:198-199).
- `TcpEngine.Tcp.RunnerStep`: embeds the corrected `sock2ibuf`, so it is not the loop as written. The loop as written exists only as the pure `WorkerSpec.StepAsWritten` and `WorkerSpec.RunAsWritten`; no class method runs it.
- `TcpEngine.Tcp.Close`: the 40 ms grace timer is the `ackInTime` input. The real worker always acknowledges nil. A test double that acknowledges another error is not modelled, nor is the blocked send of a worker whose acknowledgement came too late.
- Wall-clock time is an integer clock; each wake reads it once. Go reads the clock twice in the iteration that writes a request: at tcp.go:204 for the request time, and then at tcp.go:168 for the elapsed time. So in Go, a command with a zero timeout already times out in that iteration. In the model the elapsed time is 0 there, and the worker stays `waitingOnReply` until the next wake.
- The regular-expression engine is the abstract `locate` function. `fmt.Sprintf` and `%q` are function parameters; their output is not modelled.
- In Go a response's bytes share the buffer's backing array (tcp.go:169, 174, 179). The model copies the bytes; `Inv` states what the two views agree on. So the model hides an aliasing effect. After a response is delivered, the next request truncates the buffer (tcp.go:197) and later reads write into it (tcp.go:147). Those writes can overwrite the bytes of the response the earlier caller still holds.
- The runner's deferred cleanup (closing the connection, stopping the ticker, closing the channels) and the `setup` handshake are not modelled; `Dial` simply sets `alive`.
- A zero `Command` has nil patterns. The fresh engine's placeholder request uses a pattern that matches nothing; it is never consulted while idle.
- The `fmt.Sprintf("")` call at tcp.go:183 has no effect and is left out.
- `Response.String`, the outer `Sprintf` of `Command.String`, `Commands.String` (depends on Go map order) and the `New` factory of arbiter.go are formatting wrappers or a factory, so they are left out. doc.go and the test server in tcp_test.go are not part of this model.
- Go's map iteration order, which `JSONLabels` inherits, is unspecified; the order taken is a parameter.

## Findings

| source | as written | input that shows it | evidently intended | confidence | as-written member | corrected member |
|---|---|---|---|---|---|---|
| tcp.go:148-153 | After classifying the read error, line 153 sets `t.err = nil` unconditionally, so a non-timeout read error is never stored. | A `conn.Read` that returns a connection-reset error leaves `t.err` nil. The worker then answers `ErrBusy` instead of the broken connection. | Store a non-timeout read error, as lines 150-151 do, so that a busy reply reports it. | medium, not executed | `WorkerSpec.Sock2IbufAsWrittenDropsReadError` | `WorkerSpec.Sock2IbufF` |
