/**
 * What the PDF tools see of a document, and the shape of an API route's
 * answer.
 */
module Pdf {
  import opened JsValues

  /** Text drawn on a page by the signing route: the values handed to the
      drawing call, exactly as they arrived in the request. */
  datatype Stamp = Stamp(text: JsValue, x: JsValue, y: JsValue)

  /** A page: its rotation in degrees and the text drawn on it. */
  datatype Page = Page(angle: int, stamps: seq<Stamp>)

  /** A loaded document is its sequence of pages. */
  type Document = seq<Page>

  /** The rejection the routes give when a required body field is falsy. */
  const MissingParameters := "Missing required parameters."

  /** The answer of a route: a result with the file name it is offered
      under (status 200), a rejection with a status and message, or an
      exception caught by the route's handler (status 500, with the
      exception's own message). */
  datatype Reply<T> =
    | Ok(result: T, filename: string)
    | Error(status: nat, message: string)
    | Crash
}
