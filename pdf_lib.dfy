/**
 * The slice of PyMuPDF (`fitz`) that the flattening transform touches.
 *
 * A document is an object whose page list the program changes in place
 * (`new_page`, `insert_image`) and whose handle it closes, so it is a class.
 * What the library computes without changing a document (parsing a byte
 * stream, rendering a page to PNG, serialising a document) is foreign code;
 * it is handed to the model as a `Library` of total functions, where `None`
 * stands for "the call raised".
 */
module PdfLib {
  import opened Wrappers

  newtype byte = x: int | 0 <= x < 256

  type Bytes = seq<byte>

  /** `fitz.Rect(x0, y0, x1, y1)`, in points. */
  datatype Rect = Rect(x0: real, y0: real, x1: real, y1: real)

  /** `fitz.Matrix(sx, sy)`: a pure scaling transformation. */
  datatype Matrix = Matrix(sx: real, sy: real)

  /** One image placed on a page by `insert_image(rect, stream=png)`. */
  datatype Placement = Placement(rect: Rect, png: Bytes)

  /**
   * A page: its size in points (copied verbatim, never computed with), the
   * content stream it was parsed from, and the images inserted into it.
   */
  datatype Page = Page(width: real, height: real, content: Bytes, images: seq<Placement>)
  {
    /** `page.rect`: the page's full rectangle, anchored at the origin. */
    function Bounds(): Rect
    {
      Rect(0.0, 0.0, width, height)
    }
  }

  /**
   * The foreign operations: `fitz.open(stream=..., filetype="pdf")`,
   * `page.get_pixmap(matrix=m, alpha=False).tobytes("png")` and
   * `doc.save(buf, deflate=True)` followed by reading the buffer back.
   */
  datatype Library = Library(
    parse: Bytes -> Option<seq<Page>>,
    render: (Page, Matrix) -> Option<Bytes>,
    save: seq<Page> -> Option<Bytes>)

  /** What happened to a document handle, as the library reports it. */
  datatype HandleEvent =
    | OpenFailed             // `fitz.open(stream=...)` raised; no document exists
    | Opened(doc: Document)  // a document handle was created
    | Closed(doc: Document)  // `close()` was called on a handle

  /**
   * The library's record of handle events, in the order they happen. Only
   * the opening and closing operations of `Document` append to it, so it
   * plays the part of a resource-tracking double around PyMuPDF.
   */
  class HandleLog {
    var events: seq<HandleEvent>

    constructor ()
      ensures events == []
    {
      events := [];
    }
  }

  /** A `fitz.Document` handle: its pages and whether it is still open. */
  class Document {
    var pages: seq<Page>
    var isOpen: bool

    /** `fitz.open()`: a new, empty, open document, recorded as opened. */
    constructor New(log: HandleLog)
      modifies log
      ensures pages == [] && isOpen
      ensures log.events == old(log.events) + [Opened(this)]
    {
      pages := [];
      isOpen := true;
      new;
      log.events := log.events + [Opened(this)];
    }

    /** An open document holding `parsed`, recorded as opened. */
    constructor FromPages(parsed: seq<Page>, log: HandleLog)
      modifies log
      ensures pages == parsed && isOpen
      ensures log.events == old(log.events) + [Opened(this)]
    {
      pages := parsed;
      isOpen := true;
      new;
      log.events := log.events + [Opened(this)];
    }

    /**
     * `fitz.open(stream=data, filetype="pdf")`: a document holding the parsed
     * pages, or `null` (and an `OpenFailed` record) when parsing raises.
     */
    static method OpenStream(parse: Bytes -> Option<seq<Page>>, data: Bytes, log: HandleLog)
      returns (doc: Document?)
      modifies log
      ensures doc == null <==> parse(data).None?
      ensures doc == null ==> log.events == old(log.events) + [OpenFailed]
      ensures doc != null ==> fresh(doc) && doc.pages == parse(data).value && doc.isOpen
      ensures doc != null ==> log.events == old(log.events) + [Opened(doc)]
    {
      var parsed := parse(data);
      if parsed.None? {
        log.events := log.events + [OpenFailed];
        return null;
      }
      doc := new Document.FromPages(parsed.value, log);
    }

    /** `doc.new_page(width=w, height=h)`: appends a blank page and returns its index. */
    method NewPage(width: real, height: real) returns (index: nat)
      requires isOpen
      modifies this
      ensures index == |old(pages)|
      ensures pages == old(pages) + [Page(width, height, [], [])]
      ensures isOpen
    {
      index := |pages|;
      pages := pages + [Page(width, height, [], [])];
    }

    /** `page.insert_image(rect, stream=png)` on the page at `index`; no other page changes. */
    method InsertImage(index: nat, rect: Rect, png: Bytes)
      requires isOpen && index < |pages|
      modifies this
      ensures pages == old(pages)[index := old(pages[index]).(images := old(pages[index]).images + [Placement(rect, png)])]
      ensures isOpen
    {
      var page := pages[index];
      pages := pages[index := page.(images := page.images + [Placement(rect, png)])];
    }

    /** `doc.save(buf, deflate=True)` and reading `buf` back; the document is not changed. */
    method Save(serialize: seq<Page> -> Option<Bytes>) returns (data: Option<Bytes>)
      requires isOpen
      ensures data == serialize(pages)
    {
      data := serialize(pages);
    }

    /**
     * `doc.close()`. `raises` says whether the library raised while closing;
     * the handle counts as released and recorded as closed either way, and
     * the raise is reported.
     */
    method Close(raises: bool, log: HandleLog) returns (raised: bool)
      modifies this, log
      ensures !isOpen && pages == old(pages)
      ensures log.events == old(log.events) + [Closed(this)]
      ensures raised == raises
    {
      isOpen := false;
      log.events := log.events + [Closed(this)];
      raised := raises;
    }
  }
}
