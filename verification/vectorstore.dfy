/**
 * Page extraction and index building (backend/Vectorstore.py).
 *
 * PDF parsing, rasterisation, OCR and the FAISS index are not modelled: each
 * is a function parameter. `Reader` answers, for a file path, the direct
 * extraction result of every page, or `None` when opening the file or
 * extracting the text of any of its pages raises (text extraction is not
 * guarded, so either failure aborts the whole call);
 * `Ocr` answers, for a path and a 1-based page number, what the
 * render-then-recognise attempt produced.
 */
module Vectorstore {
  import opened Wrappers
  import opened PyText

  /** A metadata value: the model only needs strings and integers. */
  datatype MetaValue = Str(s: string) | Int(n: int)

  /** A LangChain `Document`: text plus a metadata dictionary. */
  datatype Doc = Doc(content: string, metadata: map<string, MetaValue>)

  /** What the OCR attempt for one page produced. */
  datatype OcrOutcome =
    | NoImage                         // the page could not be rendered to an image
    | Recognised(text: Option<string>) // the OCR engine ran and returned this
    | OcrRaised                       // some step of the attempt raised

  /** The errors the build phase can raise. */
  datatype Error =
    | UnreadablePdf(path: string)     // opening this file, or extracting a page's text, raised
    | NoChunks                        // the chunk list to index was empty
    | IndexBuildFailed(reason: string) // the vector index constructor raised

  type Reader = string -> Option<seq<Option<string>>>
  type Ocr = (string, nat) -> OcrOutcome

  /** The document built for page `page` (1-based) of file `path`. */
  function PageDocument(path: string, page: nat, text: string): Doc {
    Doc(text, map["source" := Str(path), "page" := Int(page)])
  }

  /** Python's `t and t.strip()`: present and not whitespace-only. */
  predicate HasText(t: Option<string>) {
    t.Some? && Strip(t.value) != []
  }

  /** A present text with at least one non-whitespace character. */
  ghost predicate HasContent(t: Option<string>) {
    t.Some? && !AllSpace(t.value)
  }

  /** The text kept for one page, decided with Python's `strip()` test: the
      direct text if it passes, else the recognised OCR text if it passes,
      else the empty string. */
  function SelectText(direct: Option<string>, ocr: OcrOutcome): string {
    if HasText(direct) then direct.value
    else if ocr.Recognised? && HasText(ocr.text) then ocr.text.value
    else []
  }

  /** What the selection means: the direct text when it has any content, else
      the OCR text when it has any, else the empty string; so a kept text is
      never whitespace-only. */
  lemma SelectTextRule(direct: Option<string>, ocr: OcrOutcome)
    ensures HasContent(direct) ==> SelectText(direct, ocr) == direct.value
    ensures !HasContent(direct) && ocr.Recognised? && HasContent(ocr.text) ==> SelectText(direct, ocr) == ocr.text.value
    ensures !HasContent(direct) && !(ocr.Recognised? && HasContent(ocr.text)) ==> SelectText(direct, ocr) == []
    ensures SelectText(direct, ocr) == [] || !AllSpace(SelectText(direct, ocr))
  {
    if direct.Some? {
      StripEmptyIffAllSpace(direct.value);
    }
    if ocr.Recognised? && ocr.text.Some? {
      StripEmptyIffAllSpace(ocr.text.value);
    }
  }

  /** When the direct text has content the OCR attempt plays no part: any two
      OCR outcomes give the same page text. */
  lemma OcrIgnoredWhenDirectHasContent(direct: Option<string>, ocr1: OcrOutcome, ocr2: OcrOutcome)
    requires HasContent(direct)
    ensures SelectText(direct, ocr1) == SelectText(direct, ocr2) == direct.value
  {
    SelectTextRule(direct, ocr1);
    SelectTextRule(direct, ocr2);
  }

  /** The document for page `page` of file `path`, given its direct result. */
  function PageRecord(path: string, page: nat, direct: Option<string>, ocr: Ocr): Doc {
    PageDocument(path, page, SelectText(direct, ocr(path, page)))
  }

  /** The documents of one file, one per page, numbered from 1. */
  function ExtractFile(path: string, pages: seq<Option<string>>, ocr: Ocr): seq<Doc> {
    seq(|pages|, i requires 0 <= i < |pages| => PageRecord(path, i + 1, pages[i], ocr))
  }

  /** `get_pdf_text`: the files are read in order and their page documents
      concatenated; the first file the reader cannot open aborts the call. */
  function GetPdfText(paths: seq<string>, read: Reader, ocr: Ocr): Result<seq<Doc>, Error>
    decreases |paths|
  {
    if |paths| == 0 then Success([])
    else
      match GetPdfText(paths[..|paths| - 1], read, ocr)
      case Failure(e) => Failure(e)
      case Success(before) =>
        var last := paths[|paths| - 1];
        match read(last)
        case None => Failure(UnreadablePdf(last))
        case Some(pages) => Success(before + ExtractFile(last, pages, ocr))
  }

  /** Every file can be opened by the reader. */
  ghost predicate AllReadable(paths: seq<string>, read: Reader) {
    forall i :: 0 <= i < |paths| ==> read(paths[i]).Some?
  }

  /** The number of pages in the first `f` files. */
  function PagesBefore(paths: seq<string>, read: Reader, f: nat): nat
    requires AllReadable(paths, read)
    requires f <= |paths|
  {
    if f == 0 then 0 else PagesBefore(paths, read, f - 1) + |read(paths[f - 1]).value|
  }

  /** The number of pages in all the given files. */
  function TotalPages(paths: seq<string>, read: Reader): nat
    requires AllReadable(paths, read)
  {
    PagesBefore(paths, read, |paths|)
  }

  /** Counting pages of the first `f` files ignores the files after them. */
  lemma {:induction false} PagesBeforeOfPrefix(paths: seq<string>, read: Reader, n: nat, f: nat)
    requires AllReadable(paths, read)
    requires f <= n <= |paths|
    ensures AllReadable(paths[..n], read)
    ensures PagesBefore(paths[..n], read, f) == PagesBefore(paths, read, f)
    decreases f
  {
    assert forall j :: 0 <= j < n ==> paths[..n][j] == paths[j];
    if f > 0 {
      PagesBeforeOfPrefix(paths, read, n, f - 1);
      assert paths[..n][f - 1] == paths[f - 1];
    }
  }

  /** Extraction fails exactly when some file is unreadable, and then it
      reports the first such file; OCR trouble never fails it. */
  lemma {:induction false} GetPdfTextFailsOnlyOnUnreadableFile(paths: seq<string>, read: Reader, ocr: Ocr)
    ensures GetPdfText(paths, read, ocr).Success? <==> AllReadable(paths, read)
    ensures GetPdfText(paths, read, ocr).Failure? ==>
      exists k :: 0 <= k < |paths| && read(paths[k]).None?
        && GetPdfText(paths, read, ocr).error == UnreadablePdf(paths[k])
        && forall j :: 0 <= j < k ==> read(paths[j]).Some?
    decreases |paths|
  {
    if |paths| > 0 {
      var init := paths[..|paths| - 1];
      GetPdfTextFailsOnlyOnUnreadableFile(init, read, ocr);
      assert forall j :: 0 <= j < |init| ==> init[j] == paths[j];
      if GetPdfText(init, read, ocr).Failure? {
        var k :| 0 <= k < |init| && read(init[k]).None?
          && GetPdfText(init, read, ocr).error == UnreadablePdf(init[k])
          && forall j :: 0 <= j < k ==> read(init[j]).Some?;
        assert read(paths[k]).None?;
      } else if read(paths[|paths| - 1]).None? {
        assert forall j :: 0 <= j < |paths| - 1 ==> read(paths[j]).Some?;
      }
    }
  }

  /** The OCR oracle has no say in whether extraction succeeds or which error
      it reports: a failed or empty OCR attempt never aborts the batch. */
  lemma {:induction false} OcrNeverAborts(paths: seq<string>, read: Reader, ocr1: Ocr, ocr2: Ocr)
    ensures GetPdfText(paths, read, ocr1).Failure? <==> GetPdfText(paths, read, ocr2).Failure?
    ensures GetPdfText(paths, read, ocr1).Failure? ==>
      GetPdfText(paths, read, ocr1).error == GetPdfText(paths, read, ocr2).error
    decreases |paths|
  {
    if |paths| > 0 {
      OcrNeverAborts(paths[..|paths| - 1], read, ocr1, ocr2);
    }
  }

  /** With every file readable, extraction succeeds with one document per
      page of every file. */
  lemma {:induction false} GetPdfTextCountsPages(paths: seq<string>, read: Reader, ocr: Ocr)
    requires AllReadable(paths, read)
    ensures GetPdfText(paths, read, ocr).Success?
    ensures |GetPdfText(paths, read, ocr).value| == TotalPages(paths, read)
    decreases |paths|
  {
    if |paths| > 0 {
      var n := |paths| - 1;
      PagesBeforeOfPrefix(paths, read, n, n);
      GetPdfTextCountsPages(paths[..n], read, ocr);
    }
  }

  /** The output for all files is the output for all but the last, followed
      by the last file's pages. */
  lemma GetPdfTextSnoc(paths: seq<string>, read: Reader, ocr: Ocr)
    requires AllReadable(paths, read) && |paths| > 0
    ensures AllReadable(paths[..|paths| - 1], read)
    ensures GetPdfText(paths[..|paths| - 1], read, ocr).Success?
    ensures GetPdfText(paths, read, ocr).Success?
    ensures |GetPdfText(paths[..|paths| - 1], read, ocr).value| == PagesBefore(paths, read, |paths| - 1)
    ensures GetPdfText(paths, read, ocr).value
         == GetPdfText(paths[..|paths| - 1], read, ocr).value + ExtractFile(paths[|paths| - 1], read(paths[|paths| - 1]).value, ocr)
  {
    var n := |paths| - 1;
    PagesBeforeOfPrefix(paths, read, n, n);
    GetPdfTextCountsPages(paths[..n], read, ocr);
  }

  /** Page `p + 1` of file `f` sits right after all pages of the files before
      it, and is that file's document for the page. */
  lemma {:induction false} GetPdfTextPageAt(paths: seq<string>, read: Reader, ocr: Ocr, f: nat, p: nat)
    requires AllReadable(paths, read)
    requires f < |paths| && p < |read(paths[f]).value|
    ensures GetPdfText(paths, read, ocr).Success?
    ensures PageDocumentAt(GetPdfText(paths, read, ocr).value, paths, read, ocr, f, p)
    decreases |paths|
  {
    var n := |paths| - 1;
    GetPdfTextSnoc(paths, read, ocr);
    var before := GetPdfText(paths[..n], read, ocr).value;
    var here := ExtractFile(paths[n], read(paths[n]).value, ocr);
    var k := PagesBefore(paths, read, f) + p;
    if f < n {
      assert paths[..n][f] == paths[f];
      GetPdfTextPageAt(paths[..n], read, ocr, f, p);
      PagesBeforeOfPrefix(paths, read, n, f);
      assert (before + here)[k] == before[k];
    } else {
      assert (before + here)[k] == here[p];
    }
  }

  /** `docs` holds page `p + 1` of file `f` right after all pages of the files
      before `f`, built by the selection rule from that page's results. */
  ghost predicate PageDocumentAt(docs: seq<Doc>, paths: seq<string>, read: Reader, ocr: Ocr, f: nat, p: nat)
    requires AllReadable(paths, read)
    requires f < |paths| && p < |read(paths[f]).value|
  {
    && PagesBefore(paths, read, f) + p < |docs|
    && docs[PagesBefore(paths, read, f) + p] == PageRecord(paths[f], p + 1, read(paths[f]).value[p], ocr)
  }

  /** On success there is exactly one document per page, files in input
      order and pages ascending within each file: page `p + 1` of file `f`
      sits right after all pages of the files before it, its metadata names
      that file and page, and its text is the selection rule applied to that
      page's direct and OCR results. */
  lemma GetPdfTextLayout(paths: seq<string>, read: Reader, ocr: Ocr)
    requires AllReadable(paths, read)
    ensures GetPdfText(paths, read, ocr).Success?
    ensures |GetPdfText(paths, read, ocr).value| == TotalPages(paths, read)
    ensures forall f, p :: 0 <= f < |paths| && 0 <= p < |read(paths[f]).value| ==>
      PageDocumentAt(GetPdfText(paths, read, ocr).value, paths, read, ocr, f, p)
  {
    GetPdfTextCountsPages(paths, read, ocr);
    forall f, p | 0 <= f < |paths| && 0 <= p < |read(paths[f]).value|
      ensures PageDocumentAt(GetPdfText(paths, read, ocr).value, paths, read, ocr, f, p)
    {
      GetPdfTextPageAt(paths, read, ocr, f, p);
    }
  }

  /** A text is kept only if it is empty or has a non-whitespace character. */
  ghost predicate NoBlankText(docs: seq<Doc>) {
    forall i :: 0 <= i < |docs| ==> docs[i].content == [] || !AllSpace(docs[i].content)
  }

  /** No extracted page carries whitespace-only text: a blank direct result is
      never kept, and neither is a blank OCR result. */
  lemma {:induction false} GetPdfTextHasNoBlankPages(paths: seq<string>, read: Reader, ocr: Ocr)
    ensures GetPdfText(paths, read, ocr).Success? ==> NoBlankText(GetPdfText(paths, read, ocr).value)
    decreases |paths|
  {
    if |paths| > 0 {
      var n := |paths| - 1;
      GetPdfTextHasNoBlankPages(paths[..n], read, ocr);
      if GetPdfText(paths, read, ocr).Success? {
        var before := GetPdfText(paths[..n], read, ocr).value;
        var pages := read(paths[n]).value;
        var docs := ExtractFile(paths[n], pages, ocr);
        forall i | 0 <= i < |docs|
          ensures docs[i].content == [] || !AllSpace(docs[i].content)
        {
          assert docs[i].content == SelectText(pages[i], ocr(paths[n], i + 1));
          SelectTextRule(pages[i], ocr(paths[n], i + 1));
        }
        assert GetPdfText(paths, read, ocr).value == before + docs;
      }
    }
  }

  /** The per-page branch of `get_pdf_text` as written: direct text first,
      then the OCR attempt, whose failures all leave the text empty. */
  method PageText(direct: Option<string>, attempt: OcrOutcome) returns (finalText: string)
    ensures HasContent(direct) ==> finalText == direct.value
    ensures !HasContent(direct) && attempt.Recognised? && HasContent(attempt.text) ==> finalText == attempt.text.value
    ensures !HasContent(direct) && !(attempt.Recognised? && HasContent(attempt.text)) ==> finalText == []
  {
    finalText := [];
    if direct.Some? {
      StripEmptyIffAllSpace(direct.value);
    }
    if direct.Some? && Strip(direct.value) != [] {
      finalText := direct.value;
    } else {
      match attempt {
        case Recognised(text) =>
          if text.Some? {
            StripEmptyIffAllSpace(text.value);
          }
          if text.Some? && Strip(text.value) != [] {
            finalText := text.value;
          }
        case NoImage =>
        case OcrRaised =>
      }
    }
  }

  /** The inner loop of `get_pdf_text`: one document is appended per page of
      the file, in page order. */
  method AppendFilePages(docs: seq<Doc>, path: string, pages: seq<Option<string>>, ocr: Ocr)
    returns (out: seq<Doc>)
    ensures out == docs + ExtractFile(path, pages, ocr)
  {
    out := docs;
    var p := 0;
    while p < |pages|
      invariant 0 <= p <= |pages|
      invariant out == docs + ExtractFile(path, pages[..p], ocr)
    {
      var text := PageText(pages[p], ocr(path, p + 1));
      SelectTextRule(pages[p], ocr(path, p + 1));
      ExtractFileGrows(path, pages, ocr, p);
      out := out + [PageDocument(path, p + 1, text)];
      p := p + 1;
    }
    assert pages[..p] == pages;
  }

  /** Extracting one more page appends exactly that page's document. */
  lemma ExtractFileGrows(path: string, pages: seq<Option<string>>, ocr: Ocr, p: nat)
    requires p < |pages|
    ensures ExtractFile(path, pages[..p + 1], ocr)
         == ExtractFile(path, pages[..p], ocr) + [PageRecord(path, p + 1, pages[p], ocr)]
  {
    var longer := ExtractFile(path, pages[..p + 1], ocr);
    var shorter := ExtractFile(path, pages[..p], ocr);
    var page := PageRecord(path, p + 1, pages[p], ocr);
    assert |longer| == |shorter + [page]|;
    forall i | 0 <= i < |longer|
      ensures longer[i] == (shorter + [page])[i]
    {
      assert pages[..p + 1][i] == pages[i];
      if i < p {
        assert pages[..p][i] == pages[i];
      }
    }
  }

  /** The outer loop of `get_pdf_text`: files are opened in order and an
      unreadable one aborts the whole call. */
  method CollectPageDocuments(paths: seq<string>, read: Reader, ocr: Ocr) returns (r: Result<seq<Doc>, Error>)
    ensures r == GetPdfText(paths, read, ocr)
  {
    var docs: seq<Doc> := [];
    var f := 0;
    while f < |paths|
      invariant 0 <= f <= |paths|
      invariant GetPdfText(paths[..f], read, ocr) == Success(docs)
    {
      var path := paths[f];
      assert paths[..f + 1][..f] == paths[..f];
      match read(path) {
        case None =>
          UnreadablePrefixDecides(paths, read, ocr, f + 1);
          return Failure(UnreadablePdf(path));
        case Some(pages) =>
          docs := AppendFilePages(docs, path, pages, ocr);
      }
      f := f + 1;
    }
    assert paths[..f] == paths;
    r := Success(docs);
  }

  /** Once a prefix of the files fails, the whole call fails the same way. */
  lemma {:induction false} UnreadablePrefixDecides(paths: seq<string>, read: Reader, ocr: Ocr, k: nat)
    requires k <= |paths|
    requires GetPdfText(paths[..k], read, ocr).Failure?
    ensures GetPdfText(paths, read, ocr) == GetPdfText(paths[..k], read, ocr)
    decreases |paths| - k
  {
    if k < |paths| {
      assert paths[..k + 1][..k] == paths[..k];
      UnreadablePrefixDecides(paths, read, ocr, k + 1);
    } else {
      assert paths[..k] == paths;
    }
  }

  /** `get_vectorstore`: an empty chunk list is rejected before the index
      constructor is reached; otherwise the constructor's result, or the error
      it raised, is passed through. */
  function GetVectorstore<V>(chunks: seq<Doc>, build: seq<Doc> -> Result<V, string>): (r: Result<V, Error>)
    ensures |chunks| == 0 ==> r == Failure(NoChunks)
    ensures r.Success? ==> |chunks| > 0 && build(chunks) == Success(r.value)
    ensures |chunks| > 0 && build(chunks).Success? ==> r == Success(build(chunks).value)
    ensures |chunks| > 0 && build(chunks).Failure? ==> r == Failure(IndexBuildFailed(build(chunks).error))
  {
    if |chunks| == 0 then Failure(NoChunks)
    else
      match build(chunks)
      case Success(index) => Success(index)
      case Failure(reason) => Failure(IndexBuildFailed(reason))
  }
}
