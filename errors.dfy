/**
 * The error values of the package. Go's sentinels are compared by identity;
 * here each sentinel is a constructor, and an error coming from the
 * connection itself is passed through as `Transport`. A Go `error` that may
 * be nil is an `Option<Error>`.
 */
module Errors {
  import opened Text

  datatype Error =
    | ErrTimeout            // no reply matched within the command's timeout
    | ErrBusy               // a request arrived while another was in flight
    | ErrNotConnected       // the engine is not running
    | ErrMatch              // the failure pattern matched the reply
    | ErrUnformedResponse   // internal: still waiting for a timeout or a match
    | ErrBytesArgs          // the prototype and the arguments do not fit together
    | ErrBytesFormat        // the formatted command fails its validation pattern
    | Transport(reason: GoString)  // dial, write or read error of the connection
}
