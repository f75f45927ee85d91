/** Results of operations that the source leaves undefined, or that are not followed further, for some inputs. */
module Wrappers {

  datatype Option<+T> = None | Some(value: T)

  /** Why an operation has no result. */
  datatype Error =
    | ReadPastEnd      // a length of fewer than two bytes was reduced by two, unsigned
    | MissingHeader    // a packet shorter than its headers was stored without plume, or its header used
    | RawPacket        // raw bytes were appended to the first item of the collection

  datatype Result<+T> = Ok(value: T) | Err(error: Error)
}
