# flatten-service in Dafny

A model of the flattening web service in `flatten_service.py`: an uploaded
PDF is checked (query `dpi`, declared content type, non-empty body), every
page is rasterised with PyMuPDF at `dpi / 72` zoom and stamped onto a new
page of the same size, the new document is saved and returned as an
attachment named `<name>.flattened.pdf`.

Modules, one per part of the program:

- `PdfLib` (`pdf_lib.dfy`): the part of PyMuPDF the service uses. A `Document`
  class holds the page list that `new_page` and `insert_image` change in
  place, and an open flag. Opening and closing a document append to a
  `HandleLog`, the library's record of handle events, in order. Parsing,
  rendering a page to PNG and saving are foreign code; they are the fields of
  a `Library` value (total functions, `None` meaning "raised").
- `Transform` (`transform.dfy`): `flatten_pdf_bytes`. `OutputPages` is the
  specification of the page loop; `AddFlatPages` is the loop itself over the
  `Document` objects; `FlattenPdfBytes` is the whole function with its
  open/close discipline, proved equal to the specification `Flatten`.
- `OutputName` (`output_name.dfy`): the download name,
  `(filename or "document.pdf").rsplit(".pdf", 1)[0] + ".flattened.pdf"`.
- `Endpoint` (`endpoint.dfy`): `POST /flatten`: the checks in their order,
  how each outcome becomes a response, and the handler `FlattenPdf`.
- `Wrappers` (`wrappers.dfy`): `Option` and `Result`.

The check order follows the code. `dpi` is declared as
`Query(150, ge=72, le=600)`, so the framework rejects an out-of-range value
before the handler body runs, with its own validation error (status 422). Only
then are the content type and the empty body checked, each with a 400.
A page that fails to render, or a failed save, is not caught by the service,
so it becomes a 500. The page index is kept in the model's
`RenderFailed(index)` but is not reported to the client. An empty body never
reaches the flattening code: the handler answers it with 400 "Empty file".

## Model

| member | source | states |
|---|---|---|
| `OutputName.LastIndexOf` | flatten_service.py:74 | the split point `rsplit(".pdf", 1)` uses: a returned index is an occurrence with no occurrence further right, and `None` means there is no occurrence at all |
| `OutputName.RSplitHead` | flatten_service.py:74 | `rsplit(sep, 1)[0]` for a non-empty separator (Python raises on an empty one): the text before the last separator, or the whole string without one; always a prefix of the input |
| `OutputName.UploadName` | flatten_service.py:74 | `filename or "document.pdf"`: never empty, and a non-empty upload name is used unchanged |
| `OutputName.OutputFilename` | flatten_service.py:74 | the derived name always ends with `.flattened.pdf` |
| `OutputName.CutAtLastExtension` | flatten_service.py:74 | a name is cut at its last `.pdf`; the text before it is kept and everything after it is dropped |
| `OutputName.NoExtensionKeptWhole` | flatten_service.py:74 | a name containing no `.pdf` is kept whole, with `.flattened.pdf` appended |
| `OutputName.ReplacesTrailingExtension` | flatten_service.py:74 | `stem.pdf` becomes `stem.flattened.pdf` for every stem, including one that itself contains `.pdf` |
| `OutputName.MissingNameUsesDefault` | flatten_service.py:74 | a missing or empty upload name gives `document.flattened.pdf` |
| `OutputName.TrailingTextDropped` | flatten_service.py:74 | text after the last `.pdf` is dropped: `stem.pdf` followed by any dot-free tail gives `stem.flattened.pdf` (e.g. `a.pdfx` gives `a.flattened.pdf`) |
| `OutputName.MatchIsCaseSensitive` | flatten_service.py:74 | `.PDF` is not `.pdf`: a `.pdf`-free stem plus `.PDF` is kept whole (`x.PDF` gives `x.PDF.flattened.pdf`) |
| `Endpoint.Lower` | flatten_service.py:63 | lower-casing keeps the length and maps each character on its own, in place |
| `Endpoint.LowerIdempotent` | flatten_service.py:63 | lower-casing twice is the same as lower-casing once |
| `Endpoint.IsPdfMediaType` | flatten_service.py:63-64 | defines acceptance: the lower-cased content type (`""` when missing) is one of the two media types |
| `Endpoint.AcceptedMediaTypes` | flatten_service.py:63-65 | the content type is accepted exactly when it equals `application/pdf` or `application/octet-stream` ignoring case; a missing one counts as `""` and is rejected |
| `Endpoint.MediaTypeIgnoresCase` | flatten_service.py:63-64 | a content type is accepted exactly when its lower-cased form is |
| `Endpoint.EffectiveDpi` | flatten_service.py:60 | defines the dpi a request uses: the one given, or 150 |
| `Endpoint.DpiAllowed` | flatten_service.py:60 | defines the bound `ge=72, le=600` on that dpi, both ends inclusive |
| `Endpoint.Validate` | flatten_service.py:60-69 | a request passes exactly when dpi is in 72..600 (150 if absent), the content type is accepted and the body is non-empty; each failure gives its own response, checked in that order |
| `Endpoint.DpiOutOfRangeRejected` | flatten_service.py:60 | any dpi below 72 or above 600 is refused with the framework's 422, whatever the upload |
| `Endpoint.DefaultDpiUsed` | flatten_service.py:60 | without a dpi, the upload is flattened at 150 |
| `Endpoint.ContentTypeCheckedBeforeBody` | flatten_service.py:63-67 | a rejected content type gives 400 "Upload a PDF file" and the body makes no difference |
| `Endpoint.EmptyBodyNeverFlattened` | flatten_service.py:67-71 | an empty body gives 400 "Empty file" and the response does not depend on the PDF library at all |
| `Endpoint.UnreadableUploadIsClientError` | flatten_service.py:15-18 | an accepted upload that the library cannot open gives 400 "Invalid or corrupted PDF" |
| `Endpoint.LibraryFailureIsServerError` | flatten_service.py:25-40 | once the source has opened, a render or save failure gives a 500 and never a 4xx |
| `Endpoint.AttachmentIsFlattenedUpload` | flatten_service.py:71-79 | a successful response is what the library saved for the flattened pages, one per source page, under the derived file name |
| `Endpoint.Respond` | flatten_service.py:71-79 | how a flattening outcome becomes a response: 200 with the attachment exactly on success, 400 "Invalid or corrupted PDF" (raised at line 18) exactly for an unreadable source, 500 exactly for the other failures |
| `Endpoint.Handle` | flatten_service.py:57-79 | the handler's response as a function: 200 exactly when every check passes and flattening succeeds, and 422 exactly when the dpi is out of range |
| `Endpoint.FlattenPdf` | flatten_service.py:57-79 | the handler returns `Handle`. When a check refuses the request, the library's handle log is unchanged. Otherwise the log gains exactly what `flatten_pdf_bytes` does: only a failed open when the upload cannot be parsed, else source opened, output opened, output closed, source closed |
| `Transform.ZoomFor` | flatten_service.py:22-23 | the same zoom is used on both axes, and it equals dpi / 72 |
| `Transform.OutputPages` | flatten_service.py:25-34 | the loop succeeds exactly when every page renders. The output then has one page per source page, in order, with the same width and height, and exactly one image: that page's raster over its full rectangle. Otherwise it fails at the first page that does not render |
| `Transform.OutputPagesStep` | flatten_service.py:25-34 | one more rendered page appends exactly its flat copy to the output |
| `Transform.OutputPagesFailAt` | flatten_service.py:25-27 | if every page before `i` renders and page `i` does not, the loop fails at `i` |
| `Transform.PagesAreIndependent` | flatten_service.py:25-34 | flattening a concatenation of page lists is the concatenation of the separate results, and it fails exactly when one part fails |
| `Transform.Flatten` | flatten_service.py:10-49 | the reference definition of what `flatten_pdf_bytes` returns or raises: success only when the source opened, and a render failure names an existing source page that does not render |
| `Transform.InvalidPdfIffSourceUnreadable` | flatten_service.py:15-18 | `InvalidPdf` is reported exactly when the source cannot be opened |
| `Transform.FlattenSucceedsIff` | flatten_service.py:15-40 | flattening succeeds exactly when the source opens, every page renders and the save succeeds |
| `Transform.AddFlatPages` | flatten_service.py:25-34 | after the loop, the output document holds the flattened pages. On a render failure it holds exactly the flat copies of the pages before the failing one |
| `Transform.FlattenPdfBytes` | flatten_service.py:10-49 | the result is `Flatten`, whichever close raises. If the source cannot be opened, the library records only the failed open, so no output document is created. Otherwise the library records exactly: source opened, output opened, output closed, source closed. So each handle is closed exactly once on every path, output first. The output holds the flattened pages, or after a render failure the flat copies of the pages before it |
| `PdfLib.Document.OpenStream` | flatten_service.py:16 | opening from a stream yields an open document holding the parsed pages, recorded as opened, or no document and a recorded failed open exactly when parsing raises |
| `PdfLib.Document.FromPages` | flatten_service.py:16 | a document opened on parsed pages is open, holds them, and is recorded as opened |
| `PdfLib.Document.New` | flatten_service.py:20 | a new output document is open, empty, and recorded as opened |
| `PdfLib.Document.NewPage` | flatten_service.py:32 | `new_page` appends one blank page of the given size and returns its index |
| `PdfLib.Document.InsertImage` | flatten_service.py:34 | `insert_image` adds one placement to that page and changes nothing else |
| `PdfLib.Document.Save` | flatten_service.py:37-40 | saving returns the library's serialisation of the current pages and leaves the document unchanged |
| `PdfLib.Document.Close` | flatten_service.py:41-49 | closing marks the handle closed, records the close, keeps the pages, and reports whether it raised |

## Left out

- PyMuPDF itself is not modelled: PDF parsing, `get_pixmap` rendering (alpha off), PNG encoding, how `insert_image` draws, and `save(deflate=True)`. They are the `parse`, `render` and `save` functions of `Library`, which may fail.
- Page sizes and the zoom are floating point in Python. Here sizes are `real` values that are only copied, and the zoom is the exact rational `dpi / 72`. Pixel sizes and their rounding are not modelled, because the code never computes them.
- `new_page` and `insert_image` are assumed never to raise. Only rendering (`get_pixmap`/`tobytes`) and `save` failures are modelled.
- `fitz.open()` for the output document (line 20) is assumed to succeed. It sits outside the `try`, so if it raised, the source handle would not be closed.
- `PdfLib.Document.Close`: a `close()` that raises is taken to have released the handle, because PyMuPDF's state after a failed close is not known.
- `Endpoint.Lower` lower-cases ASCII letters only and keeps every other character. Python's `str.lower()` also maps non-ASCII characters. Two of them produce ASCII: KELVIN SIGN becomes `k`, which neither media type contains, and `İ` (U+0130) becomes `i` followed by U+0307, whose extra combining mark rules out a match. So acceptance should be the same, but the model does not prove this.
- `Endpoint.Respond` always answers a successful flatten with the attachment. In the running service, Starlette encodes header values as Latin-1 when building the `StreamingResponse`, so an upload name with a character outside Latin-1 may instead end in a 500. Starlette is not part of this model.
- FastAPI and Starlette plumbing: routing, `/healthz`, the async `file.read()`, `StreamingResponse`, the `Content-Disposition` header text beyond the file name, the body of the 422 validation error, and the 422 for a missing file or a non-integer `dpi`.
- `flatten_pdf_bytes`'s default `dpi=150` is not modelled. Its only caller always passes `dpi` explicitly.
- The `BytesIO` buffer is folded into `save`, which returns the bytes directly.
