/** How a call into the beat-detection code ends: with a value, or with a
    Swift runtime trap. A trap stops the process, so nothing after it runs
    and no state is updated by the trapping call. */
module Traps {

  /** The two runtime faults the detector code can raise. */
  datatype Fault =
    | InvertedRange    // a half-open range `a..<b` built with b < a
    | IndexOutOfRange  // an array subscript outside `0..<count`

  datatype Execution<T> = Completed(value: T) | Trapped(fault: Fault)
}
