/** Optional values and fallible results shared by the loader, the mean reducer
    and the subtraction pipeline. */
module Outcomes {

  /** A header value that may be absent or unparsable. */
  datatype Option<+T> = None | Some(value: T) {
    /** The value, or `default` when there is none (Rust's `unwrap_or`). */
    function GetOr(default: T): T {
      match this
      case Some(v) => v
      case None => default
    }
  }

  /** Every way an operation of the core can fail. */
  datatype Error =
    | IoError                                        // the file cannot be opened or its pixels read
    | NotAnImage                                     // the primary HDU holds no image
    | IncompatibleShape(shape: seq<nat>, len: nat)   // payload length differs from the product of the extents
    | UnsupportedDimensions(shape: seq<nat>)         // rank other than 2 or 3
    | EmptyCube(shape: seq<nat>)                     // rank 3 with no frame: there is no last frame
    | ShapeMismatch                                  // element-wise arithmetic on differently shaped images
    | NoImagesToAverage                              // the reduction counted no image

  /** The result of a fallible step, usable with `:-` like Rust's `?`. */
  datatype Result<+T> = Ok(value: T) | Err(error: Error) {
    predicate IsFailure() {
      Err?
    }

    function PropagateFailure<U>(): Result<U>
      requires Err?
    {
      Err(error)
    }

    function Extract(): T
      requires Ok?
    {
      value
    }
  }
}
