/**
 * What the two controllers share around their `pdfStore`: the cached
 * extraction records and the JSON bodies their endpoints answer with.
 */
module Endpoints {
  import opened Pages
  import opened Citations

  /** The module-level `pdfStore` Map: extraction records by cache key. */
  type Store = map<string, Extracted>

  /** Every cached record holds the page list its own text and page count give. */
  predicate Segmented(store: Store) {
    forall k :: k in store ==> store[k].pages == Segments(store[k].text, store[k].numpages)
  }

  /** A fresh extraction may be cached without breaking Segmented. */
  lemma StoreExtraction(store: Store, key: string, data: PdfData)
    requires Segmented(store)
    ensures Segmented(store[key := Extraction(data)])
    ensures key in store[key := Extraction(data)]
  {
  }

  /** The body of a `handleChat` answer: an error with its status, or the answer with `pdfInfo`. */
  datatype ChatResponse =
    | ChatError(status: nat, error: string)
    | Answered(question: string, response: string, citations: seq<Citation>, numPages: nat, filename: string)

  /** The body of an extract endpoint's answer; `fileId` is only reported by the GridFS endpoint keyed by id. */
  datatype ExtractResponse =
    | ExtractError(status: nat, error: string)
    | ExtractedById(fileId: string, filename: string, numPages: nat)
    | ExtractedByName(filename: string, numPages: nat)

  const PdfNotFound := "PDF file not found"

  const ChatFailed := "Failed to process chat request"

  const ExtractFailed := "Failed to extract PDF content"
}
