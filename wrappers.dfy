/** Optional values and the Python exceptions the extractor can raise
    while reading a page, as plain values. */
module Wrappers {

  datatype Option<+T> = None | Some(value: T)

  /** The exceptions raised by the field extractors: a meta tag without a
      `content` attribute (KeyError), a numeral `int()` rejects (ValueError),
      and `[-1]` on the empty token list of a blank description (IndexError). */
  datatype Failure =
    | KeyError(key: string)
    | ValueError(text: string)
    | IndexError

  datatype Result<+T> = Ok(value: T) | Err(error: Failure)
}
