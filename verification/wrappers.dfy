/** Failure-carrying datatypes used in place of null pointers and early returns. */
module Wrappers {

  /** Some value, or nothing (the source's null `Node*`). */
  datatype Option<+T> = None | Some(value: T)

  /** A computed value, or the reason the operation stopped. */
  datatype Result<+T, +E> = Success(value: T) | Failure(error: E)
}

/** The ways compression and decompression abort. */
module CodecErrors {

  datatype CodecError =
    | EmptyInput      // compress: the input has no bytes, no container is produced
    | TruncatedTree   // decompress: the tree section ends before a whole tree was read
    | MissingPadByte  // decompress: no pad-count byte follows the tree
    | NullChild       // decompress: a leaf root would be stepped through; the source dereferences null here
}
