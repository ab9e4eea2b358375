/** Result values of the ByteArray primitives.  The runtime signals a failed
    check by raising an exception that never returns; here the failure is an
    ordinary value the caller inspects. */
module Results {

  datatype Option<+T> = None | Some(value: T)

  /** Which bounds check failed; one constructor per distinct message raised
      by the primitives. */
  datatype BoundsReason =
    | SizeNegative          // to_chars: "size less than zero"
    | SizeBeyondEnd         // to_chars: "size beyond actual size"
    | IndexOutOfBounds      // get_byte, set_byte
    | StartNegative         // move_bytes, fetch_bytes
    | DestNegative          // move_bytes
    | CountNegative         // move_bytes, fetch_bytes
    | MoveBeyondEnd         // move_bytes: dest + count past the end
    | MoveBeyondAvailable   // move_bytes: start + count past the end
    | FetchBeyondAvailable  // fetch_bytes: start + count past the end
    | SelfLimitNegative     // compare_bytes: limit on the receiver
    | OtherLimitNegative    // compare_bytes: limit on the other buffer

  /** Outcome of a primitive: a value, a bounds error naming the failed check,
      or an argument error (negative size given to allocate). */
  datatype Outcome<+T> = Ok(value: T) | BoundsError(reason: BoundsReason) | ArgumentError
}
