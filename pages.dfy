/**
 * `extractPdfWithPages`: the text pdf-parse extracts is cut into `numpages`
 * page records of equal width `ceil(length / numpages)`, taken with
 * `String.prototype.substring`. Page boundaries in the document itself are
 * not used: the cut is arithmetic.
 */
module Pages {
  import opened Wrappers
  import opened JsText

  /** The bytes of a stored PDF file. */
  type Bytes = seq<bv8>

  /** What pdf-parse reports about a document (its `info` metadata is not modelled). */
  datatype PdfData = PdfData(text: string, numpages: nat)

  /** One page record, numbered from 1. */
  datatype Page = Page(page: nat, content: string)

  /** The value `extractPdfWithPages` returns and the store keeps. */
  datatype Extracted = Extracted(text: string, numpages: nat, pages: seq<Page>)

  /** An index argument of `substring` clamped to `[0, len]`. */
  function Clamp(x: int, len: nat): (r: nat)
    ensures r <= len
    ensures 0 <= x <= len ==> r == x
  {
    if x < 0 then 0 else if x > len then len else x
  }

  /** `s.substring(a, b)`: both indices clamped to `[0, |s|]`, then taken in increasing order. */
  function JsSubstring(s: string, a: int, b: int): string {
    var x := Clamp(a, |s|);
    var y := Clamp(b, |s|);
    if x <= y then s[x..y] else s[y..x]
  }

  /** Within bounds and in order, `substring` is the plain slice. */
  lemma SubstringInRange(s: string, a: int, b: int)
    requires 0 <= a <= b <= |s|
    ensures JsSubstring(s, a, b) == s[a..b]
  {
  }

  /** `substring` does not care in which order its indices come. */
  lemma SubstringSymmetric(s: string, a: int, b: int)
    ensures JsSubstring(s, a, b) == JsSubstring(s, b, a)
  {
  }

  /** `substring` from at or past the end is empty. */
  lemma SubstringPastEnd(s: string, a: int, b: int)
    requires |s| <= a && |s| <= b
    ensures JsSubstring(s, a, b) == ""
  {
  }

  /** `Math.ceil(a / b)` for a positive divisor, on unbounded integers. */
  function CeilDiv(a: nat, b: nat): nat
    requires b > 0
  {
    (a + b - 1) / b
  }

  /** CeilDiv is the least multiple count that covers `a`. */
  lemma CeilDivBounds(a: nat, b: nat)
    requires b > 0
    ensures CeilDiv(a, b) * b >= a
    ensures CeilDiv(a, b) > 0 ==> (CeilDiv(a, b) - 1) * b < a
    ensures a == 0 ==> CeilDiv(a, b) == 0
  {
    var q := CeilDiv(a, b);
    var r := (a + b - 1) % b;
    assert a + b - 1 == q * b + r && 0 <= r < b;
    if q > 0 {
      assert (q - 1) * b == q * b - b;
    }
  }

  /** The characters per page the loop uses; zero pages make the loop run no times, so any value would do. */
  function AvgCharsPerPage(text: string, numpages: nat): nat {
    if numpages == 0 then 0 else CeilDiv(|text|, numpages)
  }

  /** `i * avg`, the offset at which the page with index `i` starts, as repeated addition. */
  function Offset(i: nat, avg: nat): nat {
    if i == 0 then 0 else Offset(i - 1, avg) + avg
  }

  lemma {:induction false} OffsetIsProduct(i: nat, avg: nat)
    ensures Offset(i, avg) == i * avg
  {
    if i > 0 {
      OffsetIsProduct(i - 1, avg);
      assert i * avg == (i - 1) * avg + avg;
    }
  }

  /** The content of the page with index `i` (page number `i + 1`). */
  function Slice(text: string, avg: nat, i: nat): string {
    JsSubstring(text, Offset(i, avg), Min(Offset(i + 1, avg), |text|))
  }

  /** The first `k` page records. */
  function PagesUpTo(text: string, avg: nat, k: nat): seq<Page> {
    if k == 0 then [] else PagesUpTo(text, avg, k - 1) + [Page(k, Slice(text, avg, k - 1))]
  }

  /** Reference definition of the page list `extractPdfWithPages` builds. */
  function Segments(text: string, numpages: nat): seq<Page> {
    PagesUpTo(text, AvgCharsPerPage(text, numpages), numpages)
  }

  /** The record the store keeps for parsed PDF data. */
  function Extraction(data: PdfData): Extracted {
    Extracted(data.text, data.numpages, Segments(data.text, data.numpages))
  }

  /** The contents of the page records, concatenated in order. */
  function Joined(pages: seq<Page>): string {
    if |pages| == 0 then "" else Joined(pages[..|pages| - 1]) + pages[|pages| - 1].content
  }

  /**
   * `extractPdfWithPages(dataBuffer)`: `parsed` is what pdf-parse made of the
   * buffer; its failure is rethrown, otherwise the loop pushes one record per page.
   */
  method ExtractPdfWithPages(parsed: Outcome<PdfData>) returns (r: Outcome<Extracted>)
    ensures parsed.Failed? ==> r.Failed?
    ensures parsed.Ok? ==> r == Ok(Extraction(parsed.value))
  {
    if parsed.Failed? {
      return Failed;
    }
    var pdfData := parsed.value;
    var avgCharsPerPage := AvgCharsPerPage(pdfData.text, pdfData.numpages);
    var pages: seq<Page> := [];
    var i := 0;
    while i < pdfData.numpages
      invariant i <= pdfData.numpages
      invariant pages == PagesUpTo(pdfData.text, avgCharsPerPage, i)
    {
      var start := i * avgCharsPerPage;
      var end := Min((i + 1) * avgCharsPerPage, |pdfData.text|);
      OffsetIsProduct(i, avgCharsPerPage);
      OffsetIsProduct(i + 1, avgCharsPerPage);
      pages := pages + [Page(i + 1, JsSubstring(pdfData.text, start, end))];
      i := i + 1;
    }
    r := Ok(Extracted(pdfData.text, pdfData.numpages, pages));
  }

  // ---------------------------------------------------------------------------
  // Properties of the page list

  /** There are exactly `k` records, numbered 1 to k in order. */
  lemma {:induction false} PagesUpToNumbered(text: string, avg: nat, k: nat)
    ensures |PagesUpTo(text, avg, k)| == k
    ensures forall i :: 0 <= i < k ==> PagesUpTo(text, avg, k)[i].page == i + 1
  {
    if k > 0 {
      PagesUpToNumbered(text, avg, k - 1);
    }
  }

  /** The record with index `i` holds the slice for index `i`. */
  lemma {:induction false} PagesUpToContent(text: string, avg: nat, k: nat, i: nat)
    requires i < k
    ensures |PagesUpTo(text, avg, k)| == k
    ensures PagesUpTo(text, avg, k)[i].content == Slice(text, avg, i)
  {
    PagesUpToNumbered(text, avg, k);
    if i < k - 1 {
      PagesUpToContent(text, avg, k - 1, i);
    }
  }

  /** `numpages` records, numbered 1 to numpages; none at all for zero pages. */
  lemma SegmentsNumbered(text: string, numpages: nat)
    ensures |Segments(text, numpages)| == numpages
    ensures forall i :: 0 <= i < numpages ==> Segments(text, numpages)[i].page == i + 1
  {
    PagesUpToNumbered(text, AvgCharsPerPage(text, numpages), numpages);
  }

  /** Each page is a slice of the text: from `i * avg` to `(i + 1) * avg`, both cut off at the end of the text. */
  lemma SliceIsWindow(text: string, avg: nat, i: nat)
    ensures Slice(text, avg, i) == text[Min(Offset(i, avg), |text|)..Min(Offset(i + 1, avg), |text|)]
  {
  }

  /** No page holds more than `avg` characters. */
  lemma SliceBounded(text: string, avg: nat, i: nat)
    ensures |Slice(text, avg, i)| <= avg
  {
  }

  /** With `avg = ceil(length / numpages)`, no page holds more than `avg` characters. */
  lemma SegmentsBounded(text: string, numpages: nat)
    requires numpages > 0
    ensures |Segments(text, numpages)| == numpages
    ensures forall i :: 0 <= i < numpages ==>
      |Segments(text, numpages)[i].content| <= CeilDiv(|text|, numpages)
  {
    var avg := CeilDiv(|text|, numpages);
    PagesUpToNumbered(text, avg, numpages);
    forall i | 0 <= i < numpages
      ensures |Segments(text, numpages)[i].content| <= avg
    {
      PagesUpToContent(text, avg, numpages, i);
      SliceBounded(text, avg, i);
    }
  }

  /** The first `k` records concatenate to the text up to `k * avg`, cut off at its end. */
  lemma {:induction false} PagesUpToJoined(text: string, avg: nat, k: nat)
    ensures Joined(PagesUpTo(text, avg, k)) == text[..Min(Offset(k, avg), |text|)]
  {
    if k > 0 {
      PagesUpToJoined(text, avg, k - 1);
      SliceIsWindow(text, avg, k - 1);
      JoinedAppend(text, PagesUpTo(text, avg, k - 1), Page(k, Slice(text, avg, k - 1)),
        Min(Offset(k - 1, avg), |text|), Min(Offset(k, avg), |text|));
    }
  }

  /** A record holding the next window of the text extends the concatenation by that window. */
  lemma JoinedAppend(text: string, pages: seq<Page>, p: Page, a: nat, b: nat)
    requires a <= b <= |text|
    requires Joined(pages) == text[..a] && p.content == text[a..b]
    ensures Joined(pages + [p]) == text[..b]
  {
    assert (pages + [p])[..|pages|] == pages;
    assert text[..a] + text[a..b] == text[..b];
  }

  /** The pages concatenate back to the whole text, whenever there is at least one page. */
  lemma SegmentsJoined(text: string, numpages: nat)
    requires numpages > 0
    ensures Joined(Segments(text, numpages)) == text
  {
    var avg := CeilDiv(|text|, numpages);
    PagesUpToJoined(text, avg, numpages);
    OffsetIsProduct(numpages, avg);
    CeilDivBounds(|text|, numpages);
  }

  /** The text of an empty document gives `avg = 0`, so every page is empty. */
  lemma EmptyTextPages(numpages: nat)
    ensures |Segments("", numpages)| == numpages
    ensures forall i :: 0 <= i < numpages ==> Segments("", numpages)[i].content == ""
  {
    PagesUpToNumbered("", 0, numpages);
    forall i | 0 <= i < numpages
      ensures Segments("", numpages)[i].content == ""
    {
      PagesUpToContent("", 0, numpages, i);
    }
  }

  /** Pages that start at or past the end of the text are empty. */
  lemma TrailingPagesEmpty(text: string, numpages: nat, i: nat)
    requires i < numpages && |text| <= i * AvgCharsPerPage(text, numpages)
    ensures |Segments(text, numpages)| == numpages && Segments(text, numpages)[i].content == ""
  {
    var avg := AvgCharsPerPage(text, numpages);
    PagesUpToContent(text, avg, numpages, i);
    OffsetIsProduct(i, avg);
  }

  /** Five characters over four pages: two per page, and the fourth page is empty. */
  lemma FiveCharactersFourPages()
    ensures Segments("abcde", 4) == [Page(1, "ab"), Page(2, "cd"), Page(3, "e"), Page(4, "")]
  {
    assert AvgCharsPerPage("abcde", 4) == 2;
    assert Slice("abcde", 2, 0) == "ab";
    assert Slice("abcde", 2, 1) == "cd";
    assert Slice("abcde", 2, 2) == "e";
    assert Slice("abcde", 2, 3) == "";
  }
}
