/** Error kinds of the codec and the result types that carry them. */
module Wrappers {

  datatype Option<+T> = None | Some(value: T)

  /** The failures the codec signals by throwing. The last three stand for inputs
      on which the source reads past the end of its buffers. */
  datatype Error =
    | CapacityExceeded      // encode_table with more than 2^INDX_SIZE entries
    | BadCommandLength      // encode_table entry whose length is not CMDLEN*8
    | BadLength             // code section not a multiple of the command length
    | MissingDictionary     // a dictionary section the scheme needs is absent
    | UnsupportedScheme     // header tag that names none of the six schemes
    | MalformedSection      // compressed section too short for its header
    | MalformedStream       // codeword cut short or naming an index beyond its table
    | MalformedDictionary   // dictionary blob not a whole number of entries

  datatype Result<+T> = Ok(value: T) | Err(error: Error)
  {
    predicate IsFailure() { Err? }

    function PropagateFailure<U>(): Result<U>
      requires Err?
    {
      Err(error)
    }

    function Extract(): T
      requires Ok?
    {
      value
    }
  }
}
