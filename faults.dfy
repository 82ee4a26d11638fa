/**
 * The ways the modelled C code stops. Every one of them is an `assert`
 * that aborts the process in the source; the model returns it as a value
 * so that callers can see which contract was broken.
 */
module Faults {

  datatype Fault =
    | DimensionMismatch      // mul_Mat2D / sum_Mat2D shape asserts
    | NotOneRow              // nn_forward: a dense layer's activations must be one row
    | UnsupportedActivation  // activate: the `default: unreachable` case (SOFTMAX)
    | UnsupportedLayerKind   // nn_forward / nn_destroy: a layer that is not DENSE

  /** Outcome of an operation that returns nothing but may abort. */
  datatype Outcome = Pass | Fail(fault: Fault)

  /** Outcome of an operation that returns a value but may abort. */
  datatype Result<+T, +E> = Success(value: T) | Failure(error: E)
}
