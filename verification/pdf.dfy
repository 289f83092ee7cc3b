/**
  The foreign collaborators of the merge: the Base64 codec and the PDF
  library. None of them is interpreted here; each becomes a total function
  supplied by the caller through an `Env`, and the merge is proved correct
  for every choice of them.
 */
module Pdf {
  import opened Wrappers

  type Byte = bv8
  type Bytes = seq<Byte>

  /** A page of a parsed document. The merge never looks inside a page; the
      bytes are there only so that different pages are different values, which
      lets order and duplication of pages be stated and proved. */
  datatype Page = Page(content: Bytes)

  /**
    What happens when one decoded document is opened and its pages are
    appended to the writer one by one. A reader may raise after some pages
    were already appended; those pages stay in the writer. A failure while
    constructing the reader is `ReadFailed([])`.
   */
  datatype ReadOutcome =
    | ReadOk(pages: seq<Page>)
    | ReadFailed(appended: seq<Page>)

  /** The foreign calls the merge makes, as uninterpreted total functions. */
  datatype Env = Env(
    b64decode: string -> Option<Bytes>,   // None when the decoder raises
    read: Bytes -> ReadOutcome,           // PdfReader plus the add_page loop
    write: seq<Page> -> Bytes,            // PdfWriter.write of the accumulated pages
    b64encode: Bytes -> string            // Base64 encoding of the output
  )

  /** decode_pdf: a decoder exception becomes `None`; any decoded byte
      string, even an empty one, is handed on to the reader. */
  function DecodePdf(env: Env, s: string): Option<Bytes>
  {
    env.b64decode(s)
  }
}
