/**
 * Error kinds and the failure-carrying wrappers shared by the binlog
 * temporal-field decoders.
 */
module Common {

  /** The ways construction or decoding of a temporal field can fail. */
  datatype Error =
    | TruncatedBuffer   // fewer bytes remain than the encoding needs
    | MetadataTooShort  // a v2 descriptor was given empty metadata
    | InvalidPrecision  // the fractional-second precision byte is above 6

  datatype Option<+T> = None | Some(value: T)

  datatype Result<+T> = Ok(value: T) | Err(error: Error)
}
