/**
 * The persisted PDF index (Models/PdfIndexModels.cs) and the search result
 * (Models/SearchResult.cs, with the highlight list that the search passes to it).
 * Coordinates are fractions of the page, with y measured from the top edge.
 */
module PdfIndexModels {
  import opened Wrappers

  datatype PdfRect = PdfRect(x: real, y: real, width: real, height: real)

  /** A line of words on a page; `embedding` is absent until the text has been embedded. */
  datatype TextChunk = TextChunk(text: string, bounds: PdfRect, embedding: Option<seq<real>>)

  datatype ImageChunk = ImageChunk(bounds: PdfRect, embedding: Option<seq<real>>)

  datatype PdfPageIndex = PdfPageIndex(
    pageNumber: int,
    pageWidth: real,
    pageHeight: real,
    text: string,
    textEmbedding: Option<seq<real>>,
    textChunks: seq<TextChunk>,
    imageChunks: seq<ImageChunk>)

  /** One indexed file; `lastWriteUtc` is the file's modification time in ticks. */
  datatype PdfDocumentIndex = PdfDocumentIndex(pdfPath: string, lastWriteUtc: int, pages: seq<PdfPageIndex>)

  /** A region of a page to highlight, of kind "text" or "image". */
  datatype PdfHighlight = PdfHighlight(bounds: PdfRect, kind: string)

  datatype SearchResult = SearchResult(pdfPath: string, pageNumber: int, score: real, snippet: string, highlights: seq<PdfHighlight>)

  /** The index store: its document list is updated in place by ingestion. */
  class PdfIndexStore {
    var documents: seq<PdfDocumentIndex>

    constructor ()
      ensures documents == []
    {
      documents := [];
    }
  }
}
