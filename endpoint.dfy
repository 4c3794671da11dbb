/**
 * `POST /flatten`: the framework checks the `dpi` query parameter, then the
 * handler checks the declared content type, reads the body, rejects an empty
 * one, flattens it and returns the result as an attachment named after the
 * upload.
 */
module Endpoint {
  import opened Wrappers
  import opened PdfLib
  import Transform
  import OutputName

  const MIN_DPI: int := 72
  const MAX_DPI: int := 600
  const DEFAULT_DPI: int := 150

  const PDF_MEDIA_TYPE: string := "application/pdf"
  const OCTET_STREAM_MEDIA_TYPE: string := "application/octet-stream"

  /** A multipart upload: declared content type and file name (either may be missing) and the body. */
  datatype Upload = Upload(contentType: Option<string>, filename: Option<string>, body: Bytes)

  /** What the client receives. */
  datatype Response =
    | InvalidParameter(name: string)                 // the framework's validation error for a query parameter
    | HttpError(status: nat, detail: string)         // an HTTPException raised by the service
    | InternalServerError                            // an exception nobody catches
    | PdfAttachment(body: Bytes, filename: string)   // application/pdf, sent as an attachment
  {
    function Status(): nat
    {
      match this
      case InvalidParameter(_) => 422
      case HttpError(status, _) => status
      case InternalServerError => 500
      case PdfAttachment(_, _) => 200
    }
  }

  /** ASCII lower-casing of one character. */
  function LowerChar(c: char): char
  {
    if 'A' <= c <= 'Z' then (c as int + 32) as char else c
  }

  /** `s.lower()` over ASCII: every upper-case letter mapped, everything else kept, in place. */
  function Lower(s: string): (r: string)
    ensures |r| == |s|
    ensures forall i :: 0 <= i < |s| ==> r[i] == LowerChar(s[i])
  {
    if s == [] then [] else [LowerChar(s[0])] + Lower(s[1..])
  }

  /** Lower-casing twice is lower-casing once. */
  lemma LowerIdempotent(s: string)
    ensures Lower(Lower(s)) == Lower(s)
  {
  }

  /** `(file.content_type or "").lower() in ("application/pdf", "application/octet-stream")` */
  predicate IsPdfMediaType(contentType: Option<string>)
  {
    var ct := Lower(if contentType.Some? then contentType.value else "");
    ct == PDF_MEDIA_TYPE || ct == OCTET_STREAM_MEDIA_TYPE
  }

  /** `a` and `b` agree once both are lower-cased, character by character. */
  predicate EqualsIgnoringCase(a: string, b: string)
  {
    |a| == |b| && forall i :: 0 <= i < |a| ==> LowerChar(a[i]) == LowerChar(b[i])
  }

  /** `s` holds no upper-case ASCII letter. */
  predicate IsLowerCase(s: string)
  {
    forall i :: 0 <= i < |s| ==> !('A' <= s[i] <= 'Z')
  }

  /** Against a lower-case target, comparing the lower-cased string is comparing ignoring case. */
  lemma LowerEqualsIffIgnoringCase(s: string, target: string)
    requires IsLowerCase(target)
    ensures Lower(s) == target <==> EqualsIgnoringCase(s, target)
  {
  }

  /**
   * The content type is accepted exactly when it equals one of the two media
   * types ignoring case; a missing one is treated as the empty string.
   */
  lemma AcceptedMediaTypes(contentType: Option<string>)
    ensures IsPdfMediaType(contentType) <==>
      var ct := if contentType.Some? then contentType.value else "";
      EqualsIgnoringCase(ct, PDF_MEDIA_TYPE) || EqualsIgnoringCase(ct, OCTET_STREAM_MEDIA_TYPE)
    ensures contentType.None? ==> !IsPdfMediaType(contentType)
  {
    var ct := if contentType.Some? then contentType.value else "";
    LowerEqualsIffIgnoringCase(ct, PDF_MEDIA_TYPE);
    LowerEqualsIffIgnoringCase(ct, OCTET_STREAM_MEDIA_TYPE);
  }

  /** Acceptance does not depend on the case the client used. */
  lemma MediaTypeIgnoresCase(ct: string)
    ensures IsPdfMediaType(Some(ct)) <==> IsPdfMediaType(Some(Lower(ct)))
  {
    LowerIdempotent(ct);
  }

  /** The `dpi` the request carries, 150 when it has none. */
  function EffectiveDpi(dpi: Option<int>): int
  {
    if dpi.Some? then dpi.value else DEFAULT_DPI
  }

  /** `Query(150, ge=72, le=600)`. */
  predicate DpiAllowed(dpi: Option<int>)
  {
    MIN_DPI <= EffectiveDpi(dpi) <= MAX_DPI
  }

  /** A request that passed every check: the bytes to flatten and the density to use. */
  datatype Accepted = Accepted(data: Bytes, dpi: int)

  /**
   * The checks a request goes through before anything is flattened, in their
   * order: the `dpi` bound (enforced by the framework before the handler
   * runs), the content type, then the body being non-empty.
   */
  function Validate(upload: Upload, dpi: Option<int>): (r: Result<Accepted, Response>)
    ensures r.Success? <==> DpiAllowed(dpi) && IsPdfMediaType(upload.contentType) && |upload.body| > 0
    ensures r.Success? ==> r.value.data == upload.body && r.value.dpi == EffectiveDpi(dpi)
    ensures r.Success? ==> MIN_DPI <= r.value.dpi <= MAX_DPI
    ensures !DpiAllowed(dpi) ==> r == Failure(InvalidParameter("dpi"))
    ensures DpiAllowed(dpi) && !IsPdfMediaType(upload.contentType) ==> r == Failure(HttpError(400, "Upload a PDF file"))
    ensures DpiAllowed(dpi) && IsPdfMediaType(upload.contentType) && upload.body == [] ==> r == Failure(HttpError(400, "Empty file"))
  {
    if !DpiAllowed(dpi) then
      Failure(InvalidParameter("dpi"))
    else if !IsPdfMediaType(upload.contentType) then
      Failure(HttpError(400, "Upload a PDF file"))
    else if |upload.body| == 0 then
      Failure(HttpError(400, "Empty file"))
    else
      Success(Accepted(upload.body, EffectiveDpi(dpi)))
  }

  /** How the outcome of flattening reaches the client. */
  function Respond(outcome: Result<Bytes, Transform.FlattenError>, filename: Option<string>): (r: Response)
    ensures r.Status() == 200 <==> outcome.Success?
    ensures r.Status() == 400 <==> outcome == Failure(Transform.InvalidPdf)
    ensures r.Status() == 500 <==> outcome.Failure? && !outcome.error.InvalidPdf?
    ensures outcome.Success? ==> r == PdfAttachment(outcome.value, OutputName.OutputFilename(filename))
  {
    match outcome
    case Success(pdf) => PdfAttachment(pdf, OutputName.OutputFilename(filename))
    case Failure(error) =>
      if error.InvalidPdf? then HttpError(400, "Invalid or corrupted PDF") else InternalServerError
  }

  /** The response to `POST /flatten?dpi=...` carrying `upload`. */
  function Handle(lib: Library, upload: Upload, dpi: Option<int>): (r: Response)
    ensures r.Status() == 200 <==>
      Validate(upload, dpi).Success? && Transform.Flatten(lib, upload.body, EffectiveDpi(dpi)).Success?
    ensures r.Status() == 422 <==> !DpiAllowed(dpi)
  {
    match Validate(upload, dpi)
    case Failure(rejection) => rejection
    case Success(accepted) => Respond(Transform.Flatten(lib, accepted.data, accepted.dpi), upload.filename)
  }

  /**
   * `flatten_pdf`. The two flags say whether closing each document raises;
   * `log` is the PDF library's record of handle events: it is untouched when
   * a check refuses the request, and otherwise shows `flatten_pdf_bytes`
   * opening the upload and, when that works, both handles closed in order.
   */
  method FlattenPdf(lib: Library, upload: Upload, dpi: Option<int>, outCloseRaises: bool, srcCloseRaises: bool, log: HandleLog)
    returns (response: Response, ghost src: Document?, ghost out: Document?)
    modifies log
    ensures response == Handle(lib, upload, dpi)
    ensures Validate(upload, dpi).Failure? ==> log.events == old(log.events)
    ensures Validate(upload, dpi).Success? && lib.parse(upload.body).None? ==>
      log.events == old(log.events) + [OpenFailed]
    ensures Validate(upload, dpi).Success? && lib.parse(upload.body).Some? ==>
      && src != null && out != null && src != out
      && log.events == old(log.events) + [Opened(src), Opened(out), Closed(out), Closed(src)]
  {
    var checked := Validate(upload, dpi);
    if checked.Failure? {
      return checked.error, null, null;
    }
    var outcome;
    outcome, src, out := Transform.FlattenPdfBytes(lib, checked.value.data, checked.value.dpi, outCloseRaises, srcCloseRaises, log);
    response := Respond(outcome, upload.filename);
  }

  /** A rejected content type is answered before the body matters: any body gets the same 400. */
  lemma ContentTypeCheckedBeforeBody(lib: Library, upload: Upload, dpi: Option<int>, otherBody: Bytes)
    requires DpiAllowed(dpi) && !IsPdfMediaType(upload.contentType)
    ensures Handle(lib, upload, dpi) == HttpError(400, "Upload a PDF file")
    ensures Handle(lib, upload.(body := otherBody), dpi) == Handle(lib, upload, dpi)
  {
  }

  /** An empty body is refused with 400 "Empty file" whatever the PDF library would do. */
  lemma EmptyBodyNeverFlattened(lib: Library, otherLib: Library, upload: Upload, dpi: Option<int>)
    requires DpiAllowed(dpi) && IsPdfMediaType(upload.contentType) && upload.body == []
    ensures Handle(lib, upload, dpi) == HttpError(400, "Empty file")
    ensures Handle(otherLib, upload, dpi) == Handle(lib, upload, dpi)
    ensures Validate(upload, dpi).Failure?
  {
  }

  /** Any `dpi` outside 72..600 is refused before the upload is looked at. */
  lemma DpiOutOfRangeRejected(lib: Library, upload: Upload, dpi: int)
    requires dpi < MIN_DPI || MAX_DPI < dpi
    ensures Handle(lib, upload, Some(dpi)) == InvalidParameter("dpi")
    ensures Handle(lib, upload, Some(dpi)).Status() == 422
  {
  }

  /** Without a `dpi` the page is rendered at 150, i.e. with zoom 150/72 on both axes. */
  lemma DefaultDpiUsed(lib: Library, upload: Upload)
    requires IsPdfMediaType(upload.contentType) && upload.body != []
    ensures Validate(upload, None) == Success(Accepted(upload.body, 150))
    ensures Handle(lib, upload, None) == Respond(Transform.Flatten(lib, upload.body, 150), upload.filename)
  {
  }

  /** An accepted upload the library cannot open is the client's fault: 400 "Invalid or corrupted PDF". */
  lemma UnreadableUploadIsClientError(lib: Library, upload: Upload, dpi: Option<int>)
    requires Validate(upload, dpi).Success?
    requires lib.parse(upload.body).None?
    ensures Handle(lib, upload, dpi) == HttpError(400, "Invalid or corrupted PDF")
  {
  }

  /** Failing to render a page or to save the output is an internal error, never a 4xx. */
  lemma LibraryFailureIsServerError(lib: Library, upload: Upload, dpi: Option<int>)
    requires Validate(upload, dpi).Success?
    requires lib.parse(upload.body).Some?
    requires Transform.Flatten(lib, upload.body, EffectiveDpi(dpi)).Failure?
    ensures Handle(lib, upload, dpi) == InternalServerError
  {
  }

  /**
   * A successful response carries what the library saved for the flattened
   * pages, one per source page, under the derived `.flattened.pdf` name.
   */
  lemma AttachmentIsFlattenedUpload(lib: Library, upload: Upload, dpi: Option<int>)
    requires Handle(lib, upload, dpi).PdfAttachment?
    ensures Validate(upload, dpi).Success?
    ensures lib.parse(upload.body).Some?
    ensures Transform.OutputPages(lib, lib.parse(upload.body).value, Transform.ZoomFor(EffectiveDpi(dpi))).Success?
    ensures
      var flat := Transform.OutputPages(lib, lib.parse(upload.body).value, Transform.ZoomFor(EffectiveDpi(dpi))).value;
      |flat| == |lib.parse(upload.body).value| &&
      lib.save(flat) == Some(Handle(lib, upload, dpi).body)
    ensures Handle(lib, upload, dpi).filename == OutputName.OutputFilename(upload.filename)
  {
  }
}
