/** Option and Result values, and the three kinds of exception the codec's
    built-ins can throw. */
module Wrappers {

  datatype Option<+T> = None | Some(value: T)

  /** The exceptions thrown by the browser built-ins the link codec calls:
      decodeURIComponent and encodeURIComponent throw URIError, atob and btoa
      throw an InvalidCharacterError DOMException, JSON.parse throws
      SyntaxError. Unsupported marks a JSON text the model does not read:
      valid JSON of another shape than the payload, which JSON.parse would
      return, or text whose validity depends on JSON values other than
      strings. */
  datatype JsError = UriError | InvalidCharacterError | SyntaxError | Unsupported

  datatype Result<+T> = Ok(value: T) | Err(error: JsError)
}
