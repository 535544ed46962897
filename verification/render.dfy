/** The host side of rendering a specification sheet: choosing how many pages
    to keep, and keeping that many pages from the front of the rendered PDF.
    A PDF is modelled as its sequence of pages, of an abstract page type. */
module Render {
  import opened Sections
  import opened Estimator

  /** Why keeping the pages `1..n` of a document can fail. */
  datatype TrimError =
    | NoPagesKept                                   // n < 1: the page range is empty
    | PageOutOfRange(requested: int, available: nat) // n exceeds the document's page count

  datatype Result<T> = Ok(value: T) | Err(error: TrimError)

  /** The number of pages of the rendered PDF (`GetNumberOfPages`). */
  function PageCount<P>(pdf: seq<P>): nat {
    |pdf|
  }

  /** The page count used for trimming: the script's estimate when it is
      positive, the physical page count otherwise. */
  function LastValidPage(estimate: int, physicalPages: nat): (n: int)
    ensures estimate > 0 ==> n == estimate
    ensures estimate <= 0 ==> n == physicalPages
    ensures n > 0 <==> estimate > 0 || physicalPages > 0
  {
    if estimate <= 0 then physicalPages else estimate
  }

  /** Keeps pages `1..lastValidPage` of `pdf`, in order and unchanged. */
  function TrimPdf<P>(pdf: seq<P>, lastValidPage: int): (r: Result<seq<P>>)
    ensures r.Ok? <==> 1 <= lastValidPage <= |pdf|
    ensures r.Ok? ==> |r.value| == lastValidPage
                      && forall i :: 0 <= i < |r.value| ==> r.value[i] == pdf[i]
    ensures r.Ok? ==> r.value + pdf[lastValidPage..] == pdf
    ensures lastValidPage < 1 ==> r == Err(NoPagesKept)
    ensures lastValidPage > |pdf| ==> r == Err(PageOutOfRange(lastValidPage, |pdf|))
  {
    if lastValidPage < 1 then Err(NoPagesKept)
    else if lastValidPage > |pdf| then Err(PageOutOfRange(lastValidPage, |pdf|))
    else Ok(pdf[..lastValidPage])
  }

  /** Renders a specification sheet: `document` is the frames' children as
      laid out for measuring, `pdf` the pages the browser printed. */
  function RenderSpecificationSheet<P>(document: seq<seq<Element>>, pdf: seq<P>): (r: Result<seq<P>>)
    ensures r.Ok? <==> EstimateDocument(document) <= |pdf|
    ensures r.Ok? ==> r.value == pdf[..EstimateDocument(document)]
    ensures r.Err? ==> r.error == PageOutOfRange(EstimateDocument(document), |pdf|)
  {
    TrimPdf(pdf, LastValidPage(EstimateDocument(document), PageCount(pdf)))
  }

  /** On the fallback path the whole rendered document is kept, page for page. */
  lemma FallbackKeepsEveryPage<P>(estimate: int, pdf: seq<P>)
    requires estimate <= 0 && |pdf| > 0
    ensures TrimPdf(pdf, LastValidPage(estimate, PageCount(pdf))) == Ok(pdf)
  {
    assert pdf[..|pdf|] == pdf;
  }
}
