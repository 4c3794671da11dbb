/**
 * The download name of a flattened document:
 * `(filename or "document.pdf").rsplit(".pdf", 1)[0] + ".flattened.pdf"`.
 */
module OutputName {
  import opened Wrappers

  const PDF_EXTENSION: string := ".pdf"
  const FLATTENED_SUFFIX: string := ".flattened.pdf"
  const DEFAULT_NAME: string := "document.pdf"

  /** `pat` occurs in `s` starting at index `i`. */
  predicate OccursAt(s: string, pat: string, i: int)
  {
    0 <= i && i + |pat| <= |s| && s[i..i + |pat|] == pat
  }

  /** An occurrence inside `s` minus its last character is an occurrence in `s`, and back. */
  lemma OccursInDropLast(s: string, pat: string, i: int)
    requires |s| > 0
    ensures OccursAt(s[..|s| - 1], pat, i) <==> OccursAt(s, pat, i) && i + |pat| < |s|
  {
  }

  /**
   * The start of the right-most occurrence of `pat` in `s`, as `str.rfind`
   * finds it; `None` when there is none.
   */
  function LastIndexOf(s: string, pat: string): (r: Option<nat>)
    ensures r.Some? ==> OccursAt(s, pat, r.value)
    ensures r.Some? ==> forall j :: r.value < j ==> !OccursAt(s, pat, j)
    ensures r.None? ==> forall j :: !OccursAt(s, pat, j)
    decreases |s|
  {
    if |s| < |pat| then
      None
    else if s[|s| - |pat|..] == pat then
      Some(|s| - |pat|)
    else
      var r := LastIndexOf(s[..|s| - 1], pat);
      assert forall j :: OccursAt(s[..|s| - 1], pat, j) <==> OccursAt(s, pat, j) by {
        forall j ensures OccursAt(s[..|s| - 1], pat, j) <==> OccursAt(s, pat, j) {
          OccursInDropLast(s, pat, j);
        }
      }
      r
  }

  /** `s.rsplit(sep, 1)[0]`: the text before the last `sep`, or all of `s` without one. */
  function RSplitHead(s: string, sep: string): (r: string)
    requires sep != ""  // Python raises ValueError for an empty separator
    ensures |r| <= |s| && r == s[..|r|]
  {
    match LastIndexOf(s, sep)
    case Some(i) => s[..i]
    case None => s
  }

  /** The name of the upload, falling back to `DEFAULT_NAME` when it is missing or empty. */
  function UploadName(filename: Option<string>): (r: string)
    ensures r != ""
    ensures filename.Some? && filename.value != "" ==> r == filename.value
  {
    if filename.None? || filename.value == "" then DEFAULT_NAME else filename.value
  }

  /** The filename the flattened document is returned under; it always ends in `.flattened.pdf`. */
  function OutputFilename(filename: Option<string>): (r: string)
    ensures |r| >= |FLATTENED_SUFFIX| && r[|r| - |FLATTENED_SUFFIX|..] == FLATTENED_SUFFIX
  {
    RSplitHead(UploadName(filename), PDF_EXTENSION) + FLATTENED_SUFFIX
  }

  /** A name is cut at its LAST `.pdf`; whatever follows that occurrence is dropped. */
  lemma CutAtLastExtension(name: string, i: nat)
    requires name != ""
    requires OccursAt(name, PDF_EXTENSION, i)
    requires forall j :: i < j ==> !OccursAt(name, PDF_EXTENSION, j)
    ensures OutputFilename(Some(name)) == name[..i] + FLATTENED_SUFFIX
  {
  }

  /** A name with no `.pdf` anywhere is kept whole and the suffix appended. */
  lemma NoExtensionKeptWhole(name: string)
    requires name != ""
    requires forall j :: !OccursAt(name, PDF_EXTENSION, j)
    ensures OutputFilename(Some(name)) == name + FLATTENED_SUFFIX
  {
  }

  /** `stem.pdf` becomes `stem.flattened.pdf`, whatever `stem` holds (even another `.pdf`). */
  lemma ReplacesTrailingExtension(stem: string)
    ensures OutputFilename(Some(stem + PDF_EXTENSION)) == stem + FLATTENED_SUFFIX
  {
  }

  /** A missing or empty upload name yields `document.flattened.pdf`. */
  lemma MissingNameUsesDefault()
    ensures OutputFilename(None) == "document.flattened.pdf"
    ensures OutputFilename(Some("")) == "document.flattened.pdf"
  {
  }

  /**
   * Text after the last `.pdf` is discarded: with a tail holding no `.`,
   * `stem.pdf<tail>` yields `stem.flattened.pdf` (so `a.pdfx` gives `a.flattened.pdf`).
   */
  lemma TrailingTextDropped(stem: string, tail: string)
    requires forall k :: 0 <= k < |tail| ==> tail[k] != '.'
    ensures OutputFilename(Some(stem + PDF_EXTENSION + tail)) == stem + FLATTENED_SUFFIX
  {
    var name := stem + PDF_EXTENSION + tail;
    assert name[|stem|..|stem| + 4] == PDF_EXTENSION;
    forall j | |stem| < j
      ensures !OccursAt(name, PDF_EXTENSION, j)
    {
      if j + 4 <= |name| {
        // an occurrence starts with '.', but after the extension's own '.' only "pdf" and the tail follow
        assert name[j..j + 4][0] == name[j];
        if j < |stem| + 4 {
          assert name[j] == PDF_EXTENSION[j - |stem|];
        } else {
          assert name[j] == tail[j - |stem| - 4];
        }
      }
    }
    CutAtLastExtension(name, |stem|);
    assert name[..|stem|] == stem;
  }

  /**
   * The match is case-sensitive: a name ending in `.PDF` (and holding no `.pdf`)
   * is kept whole, so `x.PDF` yields `x.PDF.flattened.pdf`.
   */
  lemma MatchIsCaseSensitive(stem: string)
    requires forall j :: !OccursAt(stem, PDF_EXTENSION, j)
    ensures OutputFilename(Some(stem + ".PDF")) == stem + ".PDF" + FLATTENED_SUFFIX
  {
    var name := stem + ".PDF";
    forall j
      ensures !OccursAt(name, PDF_EXTENSION, j)
    {
      if 0 <= j && j + 4 <= |name| {
        if j + 4 <= |stem| {
          assert name[j..j + 4] == stem[j..j + 4];
          assert !OccursAt(stem, PDF_EXTENSION, j);
          assert !OccursAt(name, PDF_EXTENSION, j);
        } else {
          // the occurrence would overlap the trailing ".PDF", whose only '.' is its first character
          var k := |stem| - j;
          assert name[j..j + 4][k] == '.';
          if k == 0 {
            assert name[j..j + 4][1] == 'P';
          } else {
            assert PDF_EXTENSION[k] != '.';
          }
          assert name[j..j + 4] != PDF_EXTENSION;
        }
      }
    }
    NoExtensionKeptWhole(name);
  }
}
