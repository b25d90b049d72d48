/** Failure-carrying datatypes shared by the whole model.

    The Python source signals failure by raising; every raising path that the
    model covers is an `Err` carrying one of the `Error` kinds below. */
module Wrappers {

  datatype Option<+T> = None | Some(value: T)

  /** The exceptions of the source that the model distinguishes. */
  datatype Error =
    | KeyError(key: string)        // dict lookup of a missing key
    | IndexError                   // list index out of range
    | NoTransport                  // a bus call while no transport is stored (`self.xarm is None`)
    | AlreadyConnected             // `DeviceAlreadyConnectedError`
    | ConfigError(reason: string)  // `ValueError` raised by `connect`
    | PortOpenError                // the serial device cannot be opened
    | LinkTimeout                  // the prompt sentinel was not seen in time
    | Malformed(payload: string)   // a reply that does not decode as expected
    | AssertionFailed              // a failed `assert`
    | NotImplemented               // `NotImplementedError`
    | UnknownAction(name: string)  // the planner met an action name it cannot map
    | Undecodable(payload: string) // `UnicodeDecodeError` from a strict `bytes.decode()`
    | UnboundLocal(name: string)   // `UnboundLocalError`: a local read before any assignment

  datatype Result<+T> = Ok(value: T) | Err(error: Error) {
    predicate IsFailure() {
      Err?
    }

    function PropagateFailure<U>(): Result<U>
      requires Err?
    {
      Err(error)
    }

    function Extract(): T
      requires Ok?
    {
      value
    }
  }
}
