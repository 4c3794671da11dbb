/**
 * `flatten_pdf_bytes`: open the source, open an empty output document, and
 * for every source page in order rasterise it, add a page of the same size to
 * the output and stamp the raster over that page's full rectangle; then save
 * the output. Whatever happens after the output document exists, both
 * handles are closed, output first, and a failing close is ignored.
 */
module Transform {
  import opened Wrappers
  import opened PdfLib

  /** Why flattening failed. Only `InvalidPdf` is reported to the client as its own fault. */
  datatype FlattenError =
    | InvalidPdf                 // the source could not be opened
    | RenderFailed(index: nat)   // rasterising the source page at `index` raised
    | SaveFailed                 // serialising the output raised

  /** PDF user space has 72 units per inch. */
  const POINTS_PER_INCH: real := 72.0

  /** `fitz.Matrix(zoom, zoom)` with `zoom = dpi / 72`. */
  function ZoomFor(dpi: int): (m: Matrix)
    ensures m.sx == m.sy
    ensures m.sx * POINTS_PER_INCH == dpi as real
  {
    var zoom := dpi as real / POINTS_PER_INCH;
    Matrix(zoom, zoom)
  }

  /** The library can rasterise `page` with matrix `m`. */
  predicate Renders(lib: Library, page: Page, m: Matrix)
  {
    lib.render(page, m).Some?
  }

  /** The output page for `page`: same size, nothing but `png` covering its full rectangle. */
  function FlatPage(page: Page, png: Bytes): Page
  {
    Page(page.width, page.height, [], [Placement(page.Bounds(), png)])
  }

  /**
   * The pages the output document holds after the loop has gone over
   * `pages`, or the first page whose rendering raised.
   */
  function OutputPages(lib: Library, pages: seq<Page>, m: Matrix): (r: Result<seq<Page>, FlattenError>)
    ensures r.Success? <==> forall i :: 0 <= i < |pages| ==> Renders(lib, pages[i], m)
    ensures r.Success? ==> |r.value| == |pages|
    ensures r.Success? ==> forall i :: 0 <= i < |pages| ==>
      && r.value[i].width == pages[i].width
      && r.value[i].height == pages[i].height
      && r.value[i].content == []
      && r.value[i].images == [Placement(r.value[i].Bounds(), lib.render(pages[i], m).value)]
    ensures r.Failure? ==> r.error.RenderFailed? && r.error.index < |pages|
    ensures r.Failure? ==> !Renders(lib, pages[r.error.index], m)
    ensures r.Failure? ==> forall j :: 0 <= j < r.error.index ==> Renders(lib, pages[j], m)
    decreases |pages|
  {
    if pages == [] then
      Success([])
    else
      var last := |pages| - 1;
      match OutputPages(lib, pages[..last], m)
      case Failure(e) => Failure(e)
      case Success(done) =>
        match lib.render(pages[last], m)
        case None => Failure(RenderFailed(last))
        case Some(png) => Success(done + [FlatPage(pages[last], png)])
  }

  /** What `flatten_pdf_bytes(data, dpi)` returns or raises. */
  function Flatten(lib: Library, data: Bytes, dpi: int): (r: Result<Bytes, FlattenError>)
    ensures r.Success? ==> lib.parse(data).Some?
    ensures r.Failure? && r.error.RenderFailed? ==>
      lib.parse(data).Some? && r.error.index < |lib.parse(data).value|
      && !Renders(lib, lib.parse(data).value[r.error.index], ZoomFor(dpi))
  {
    match lib.parse(data)
    case None => Failure(InvalidPdf)
    case Some(pages) =>
      match OutputPages(lib, pages, ZoomFor(dpi))
      case Failure(e) => Failure(e)
      case Success(flat) =>
        match lib.save(flat)
        case None => Failure(SaveFailed)
        case Some(out) => Success(out)
  }

  /** The source failing to open is reported as `InvalidPdf`, and nothing else is. */
  lemma InvalidPdfIffSourceUnreadable(lib: Library, data: Bytes, dpi: int)
    ensures Flatten(lib, data, dpi) == Failure(InvalidPdf) <==> lib.parse(data).None?
  {
  }

  /** Flattening succeeds exactly when the source opens, every page renders and saving works. */
  lemma FlattenSucceedsIff(lib: Library, data: Bytes, dpi: int)
    ensures Flatten(lib, data, dpi).Success? <==>
      && lib.parse(data).Some?
      && (forall i :: 0 <= i < |lib.parse(data).value| ==> Renders(lib, lib.parse(data).value[i], ZoomFor(dpi)))
      && lib.save(OutputPages(lib, lib.parse(data).value, ZoomFor(dpi)).value).Some?
  {
  }

  /**
   * Pages are independent: flattening a concatenation is the concatenation
   * of flattening each part, and it fails exactly when one part does.
   */
  lemma PagesAreIndependent(lib: Library, front: seq<Page>, back: seq<Page>, m: Matrix)
    ensures OutputPages(lib, front + back, m).Success? <==>
      OutputPages(lib, front, m).Success? && OutputPages(lib, back, m).Success?
    ensures OutputPages(lib, front + back, m).Success? ==>
      OutputPages(lib, front + back, m).value == OutputPages(lib, front, m).value + OutputPages(lib, back, m).value
  {
    var all := front + back;
    var whole, first, second := OutputPages(lib, all, m), OutputPages(lib, front, m), OutputPages(lib, back, m);
    if whole.Success? {
      forall i | 0 <= i < |front|
        ensures Renders(lib, front[i], m)
      {
        assert all[i] == front[i];
      }
      forall i | 0 <= i < |back|
        ensures Renders(lib, back[i], m)
      {
        assert all[|front| + i] == back[i];
      }
      forall i | 0 <= i < |all|
        ensures whole.value[i] == (first.value + second.value)[i]
      {
        if i < |front| {
          assert all[i] == front[i];
        } else {
          assert all[i] == back[i - |front|];
        }
      }
    }
  }

  /** One more rendered page extends the output by that page's flat copy. */
  lemma OutputPagesStep(lib: Library, pages: seq<Page>, i: nat, m: Matrix, done: seq<Page>)
    requires i < |pages| && Renders(lib, pages[i], m)
    requires OutputPages(lib, pages[..i], m) == Success(done)
    ensures OutputPages(lib, pages[..i + 1], m) == Success(done + [FlatPage(pages[i], lib.render(pages[i], m).value)])
  {
    assert pages[..i + 1][..i] == pages[..i];
  }

  /** When every page before `i` renders and page `i` does not, the whole run fails at `i`. */
  lemma OutputPagesFailAt(lib: Library, pages: seq<Page>, i: nat, m: Matrix)
    requires i < |pages| && !Renders(lib, pages[i], m)
    requires OutputPages(lib, pages[..i], m).Success?
    ensures OutputPages(lib, pages, m) == Failure(RenderFailed(i))
  {
  }

  /**
   * The `for page in src` loop: rasterise each source page in order, add a
   * page of the same size to `output` and cover it with the raster. Stops at
   * the first page whose rendering raises and returns that failure.
   */
  method AddFlatPages(lib: Library, source: Document, output: Document, mat: Matrix)
    returns (failure: Option<FlattenError>)
    requires source != output
    requires source.isOpen && output.isOpen && output.pages == []
    modifies output
    ensures output.isOpen
    ensures failure.None? <==> OutputPages(lib, source.pages, mat).Success?
    ensures failure.None? ==> output.pages == OutputPages(lib, source.pages, mat).value
    ensures failure.Some? ==> failure.value == OutputPages(lib, source.pages, mat).error
    ensures failure.Some? ==> |output.pages| == failure.value.index
    ensures failure.Some? ==> OutputPages(lib, source.pages[..failure.value.index], mat) == Success(output.pages)
  {
    failure := None;
    var i := 0;
    while i < |source.pages| && failure.None?
      invariant 0 <= i <= |source.pages|
      invariant output.isOpen
      invariant OutputPages(lib, source.pages[..i], mat) == Success(output.pages)
      invariant failure.Some? ==> i < |source.pages| && failure.value == RenderFailed(i) && !Renders(lib, source.pages[i], mat)
      decreases |source.pages| - i, failure.None?
    {
      label step:
      var page := source.pages[i];
      var pix := lib.render(page, mat);
      if pix.None? {
        failure := Some(RenderFailed(i));
      } else {
        var index := output.NewPage(page.width, page.height);
        ghost var blank := output.pages;
        output.InsertImage(index, output.pages[index].Bounds(), pix.value);
        assert [] + [Placement(page.Bounds(), pix.value)] == [Placement(page.Bounds(), pix.value)];
        assert output.pages == blank[index := FlatPage(page, pix.value)];
        assert output.pages == old@step(output.pages) + [FlatPage(page, pix.value)];
        OutputPagesStep(lib, source.pages, i, mat, old@step(output.pages));
        i := i + 1;
      }
    }
    if failure.Some? {
      assert failure.value.index == i;
      OutputPagesFailAt(lib, source.pages, i, mat);
    } else {
      assert source.pages[..i] == source.pages;
    }
  }

  /**
   * `flatten_pdf_bytes(pdfBytes, dpi)`. `outCloseRaises` and `srcCloseRaises`
   * say whether `close()` raises on each handle; either raise is swallowed.
   * `log` is the library's record of handle events; the ghost results name
   * the two documents it records (null when never created).
   */
  method FlattenPdfBytes(lib: Library, pdfBytes: Bytes, dpi: int, outCloseRaises: bool, srcCloseRaises: bool, log: HandleLog)
    returns (result: Result<Bytes, FlattenError>, ghost src: Document?, ghost out: Document?)
    modifies log
    ensures result == Flatten(lib, pdfBytes, dpi)
    ensures lib.parse(pdfBytes).None? ==> log.events == old(log.events) + [OpenFailed]
    ensures lib.parse(pdfBytes).Some? ==>
      && src != null && out != null && src != out
      && log.events == old(log.events) + [Opened(src), Opened(out), Closed(out), Closed(src)]
      && src.pages == lib.parse(pdfBytes).value
      && !src.isOpen && !out.isOpen
    ensures lib.parse(pdfBytes).Some? && OutputPages(lib, src.pages, ZoomFor(dpi)).Success? ==>
      out.pages == OutputPages(lib, src.pages, ZoomFor(dpi)).value
    ensures lib.parse(pdfBytes).Some? && OutputPages(lib, src.pages, ZoomFor(dpi)).Failure? ==>
      OutputPages(lib, src.pages[..OutputPages(lib, src.pages, ZoomFor(dpi)).error.index], ZoomFor(dpi)) == Success(out.pages)
  {
    var source := Document.OpenStream(lib.parse, pdfBytes, log);
    if source == null {
      return Failure(InvalidPdf), null, null;
    }
    var output := new Document.New(log);

    var mat := ZoomFor(dpi);
    var failure := AddFlatPages(lib, source, output, mat);
    if failure.Some? {
      result := Failure(failure.value);
    } else {
      var saved := output.Save(lib.save);
      result := if saved.None? then Failure(SaveFailed) else Success(saved.value);
    }

    // finally: close the output, then the source; a raise from either is swallowed
    var _ := output.Close(outCloseRaises, log);
    var _ := source.Close(srcCloseRaises, log);
    src, out := source, output;
  }
}
