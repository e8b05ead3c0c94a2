/** Optional values and the failures the manipulator can end in. */
module Outcomes {

  /** A value that may be absent (a Java null). */
  datatype Option<+T> = None | Some(value: T)

  /** Each failure names the Java exception it stands for. */
  datatype Error =
    | IndexOutOfBounds   // an array or list index past its end
    | NotConnected       // CTKException: the SMILES has more than one component
    | ParseFailure       // CTKException wrapping the parser's, layout's or reader's exception
    | InvalidAtoms       // CTKException("invalid atoms") from the bond builder
    | ClassCast          // ClassCastException: an atom that is not a CDK atom was cast to one
    | NullPointer        // NullPointerException: an absent atom was dereferenced

  /** The outcome of an operation that either returns a value or throws. */
  datatype Result<+T> = Success(value: T) | Failure(error: Error)
}
