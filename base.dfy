/**
 * Shared value types of the discovery agent model: nullable references,
 * results of operations that can throw, and the exceptions they throw.
 */
module Base {

  /** A Java reference that may be null: `None` stands for `null`. */
  datatype Option<+T> = None | Some(value: T)

  /**
   * The exceptions the modelled code raises. The first five are the agent's
   * own exception classes; the last three are the Java library exceptions the
   * code raises (dereferencing a null string, reading a missing array slot, a
   * configuration path that cannot be turned into a URL).
   */
  datatype Error =
    | NotFound                 // ProcezzNotFoundException
    | Incompatible             // ProcezzManagementTypeIncompatibleException
    | StartError               // ProcezzStartException
    | StopError                // ProcezzStopException
    | MonitoringSettingsError  // ProcezzMonitoringSettingsException
    | NullReference            // NullPointerException
    | IndexOutOfBounds         // (Array)IndexOutOfBoundsException
    | MalformedUrl             // java.net.MalformedURLException

  /** The outcome of a call that either returns a value or throws. */
  datatype Result<+T> = Ok(value: T) | Err(error: Error) {
    predicate IsFailure() {
      Err?
    }

    function PropagateFailure<U>(): Result<U>
      requires Err?
    {
      Err(error)
    }

    function Extract(): T
      requires Ok?
    {
      value
    }
  }

  /** The outcome of a call that returns nothing but may throw. */
  datatype Outcome = Pass | Fail(error: Error)
}
