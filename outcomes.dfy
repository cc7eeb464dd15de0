/** Error reporting shared by the image, secret-image and steganography modules.
    Each `std::invalid_argument` the source throws becomes an `Err` with its own
    error kind; the parse failure of a saved secret image becomes `Truncated`. */
module Outcomes {

  /** The conditions under which an operation of the core refuses its input. */
  datatype Error =
    | NotSquare          // splitting an image whose width differs from its height
    | DimensionMismatch  // adding or subtracting images of different sizes
    | NotEnoughPixels    // a bit payload larger than the image's pixel count
    | BadBitCount        // decoding a bit array whose length is not a multiple of 7
    | Truncated          // a saved secret image that ends before all its integers

  datatype Result<+T> = Ok(value: T) | Err(error: Error)

  datatype Option<+T> = None | Some(value: T)
}
