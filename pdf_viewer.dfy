/** The PDF viewer component (client/src/components/PDFViewer.jsx): the current page and the
    highlight switch, the page lookups, and the search-term highlighter.

    The component's props (the PDF data and the search results) are passed to each handler;
    the state it keeps between renders lives in a Viewer object. Case-insensitive comparison is
    a per-character fold, a parameter. */
module PdfViewer {
  import opened Wrappers
  import opened Chars

  /** One page of the processed PDF as the server returns it. */
  datatype PageView = PageView(page: int, text: string)

  /** The processed PDF: `total_pages` may be absent, and so may the page list. */
  datatype PdfData = PdfData(totalPages: Option<int>, pages: Option<seq<PageView>>)

  /** One search result, as the viewer reads it. */
  datatype SearchHit = SearchHit(page: int, text: string, similarity: real)

  /** The last page handlePageChange accepts: `pdfData?.total_pages || 1`, so 1 when the PDF,
      its page count, or a non-zero page count is missing. */
  function PageLimit(pdf: Option<PdfData>): (limit: int)
    ensures pdf.None? ==> limit == 1
    ensures pdf.Some? && pdf.value.totalPages.Some? && pdf.value.totalPages.value != 0 ==> limit == pdf.value.totalPages.value
    ensures limit == 1 || (pdf.Some? && pdf.value.totalPages == Some(limit))
  {
    if pdf.Some? && pdf.value.totalPages.Some? && pdf.value.totalPages.value != 0
    then pdf.value.totalPages.value
    else 1
  }

  /** The state of one mounted viewer. */
  class Viewer {
    var currentPage: int
    var showHighlights: bool

    /** The page number lies within the range handlePageChange accepts. */
    predicate InRange(pdf: Option<PdfData>)
      reads this
    {
      1 <= currentPage <= PageLimit(pdf)
    }

    /** A freshly mounted viewer shows page 1 with highlights on. */
    constructor ()
      ensures currentPage == 1 && showHighlights
      ensures forall pdf :: PageLimit(pdf) >= 1 ==> InRange(pdf)
    {
      currentPage := 1;
      showHighlights := true;
    }

    /** handlePageChange (PDFViewer.jsx:14-18): moves to newPage exactly when it lies in
        1..PageLimit; otherwise nothing changes. */
    method HandlePageChange(newPage: int, pdf: Option<PdfData>)
      modifies this
      ensures (1 <= newPage <= PageLimit(pdf)) ==> currentPage == newPage
      ensures !(1 <= newPage <= PageLimit(pdf)) ==> currentPage == old(currentPage)
      ensures showHighlights == old(showHighlights)
      ensures old(InRange(pdf)) ==> InRange(pdf)
      ensures currentPage != old(currentPage) ==> InRange(pdf)
    {
      if newPage >= 1 && newPage <= PageLimit(pdf) {
        currentPage := newPage;
      }
    }

    /** The Previous button (PDFViewer.jsx:66-72): disabled on page 1 or below, otherwise
        handlePageChange(currentPage - 1). From an in-range page it stays in range, and on
        page 1 it does nothing. */
    method Prev(pdf: Option<PdfData>)
      modifies this
      ensures old(currentPage) <= 1 ==> currentPage == old(currentPage)
      ensures old(currentPage) > 1 ==>
                currentPage == (if old(currentPage) - 1 <= PageLimit(pdf) then old(currentPage) - 1 else old(currentPage))
      ensures old(InRange(pdf)) && old(currentPage) > 1 ==> currentPage == old(currentPage) - 1
      ensures old(InRange(pdf)) ==> InRange(pdf)
      ensures showHighlights == old(showHighlights)
    {
      if !(currentPage <= 1) {
        HandlePageChange(currentPage - 1, pdf);
      }
    }

    /** The Next button (PDFViewer.jsx:76-82): disabled once currentPage reaches the stated
        page count, otherwise handlePageChange(currentPage + 1). From an in-range page it stays
        in range, and on the last page it does nothing. */
    method Next(pdf: PdfData)
      modifies this
      ensures old(currentPage) >= PageLimit(Some(pdf)) ==> currentPage == old(currentPage)
      ensures pdf.totalPages.Some? && old(currentPage) >= pdf.totalPages.value ==> currentPage == old(currentPage)
      ensures !(pdf.totalPages.Some? && old(currentPage) >= pdf.totalPages.value) ==>
                currentPage == (if 1 <= old(currentPage) + 1 <= PageLimit(Some(pdf)) then old(currentPage) + 1 else old(currentPage))
      ensures old(InRange(Some(pdf))) && old(currentPage) < PageLimit(Some(pdf)) ==> currentPage == old(currentPage) + 1
      ensures old(InRange(Some(pdf))) ==> InRange(Some(pdf))
      ensures showHighlights == old(showHighlights)
    {
      var disabled := pdf.totalPages.Some? && currentPage >= pdf.totalPages.value;
      if !disabled {
        HandlePageChange(currentPage + 1, Some(pdf));
      }
    }

    /** The effect on a new result set (PDFViewer.jsx:8-12): with at least one result the
        viewer jumps to the first result's page, without a range check; an absent or empty
        result list leaves the page alone. */
    method ResultsChanged(results: Option<seq<SearchHit>>)
      modifies this
      ensures results.Some? && |results.value| > 0 ==> currentPage == results.value[0].page
      ensures !(results.Some? && |results.value| > 0) ==> currentPage == old(currentPage)
      ensures showHighlights == old(showHighlights)
    {
      if results.Some? && |results.value| > 0 {
        currentPage := results.value[0].page;
      }
    }

    /** A result chip (PDFViewer.jsx:145): jumps to that result's page, without a range
        check. */
    method ChipClick(result: SearchHit)
      modifies this
      ensures currentPage == result.page
      ensures showHighlights == old(showHighlights)
    {
      currentPage := result.page;
    }

    /** The "Show Highlights" checkbox (PDFViewer.jsx:103-108). */
    method SetShowHighlights(checked: bool)
      modifies this
      ensures showHighlights == checked
      ensures currentPage == old(currentPage)
    {
      showHighlights := checked;
    }

    /** getCurrentPageData (PDFViewer.jsx:31-34): the first page numbered currentPage, or
        nothing when the PDF or its page list is absent or no page has that number. */
    function CurrentPageData(pdf: Option<PdfData>): (r: Option<PageView>)
      reads this
      ensures pdf.None? || pdf.value.pages.None? ==> r.None?
      ensures pdf.Some? && pdf.value.pages.Some? ==>
                (r.None? <==> forall i :: 0 <= i < |pdf.value.pages.value| ==> pdf.value.pages.value[i].page != currentPage)
      ensures r.Some? ==> pdf.Some? && pdf.value.pages.Some? && r.value.page == currentPage && r.value in pdf.value.pages.value
    {
      if pdf.None? || pdf.value.pages.None? then None
      else FindPage(pdf.value.pages.value, currentPage)
    }

    /** getSearchResultsForCurrentPage (PDFViewer.jsx:36-39): the results on the current
        page, none when there are no results. */
    function ResultsForCurrentPage(results: Option<seq<SearchHit>>): (r: seq<SearchHit>)
      reads this
      ensures results.None? ==> r == []
      ensures forall x :: x in r <==> results.Some? && x in results.value && x.page == currentPage
    {
      if results.None? then [] else ResultsOnPage(results.value, currentPage)
    }
  }

  /** pages.find(page => page.page === n): the first page numbered n, or nothing. */
  function FindPage(pages: seq<PageView>, n: int): (r: Option<PageView>)
    ensures r.None? <==> forall i :: 0 <= i < |pages| ==> pages[i].page != n
    ensures r.Some? ==> exists i :: 0 <= i < |pages| && pages[i] == r.value && r.value.page == n
                                    && forall j :: 0 <= j < i ==> pages[j].page != n
  {
    if pages == [] then None
    else if pages[0].page == n then Some(pages[0])
    else
      var r := FindPage(pages[1..], n);
      assert forall i :: 1 <= i < |pages| ==> pages[i] == pages[1..][i - 1];
      r
  }

  /** results.filter(result => result.page === n). */
  function ResultsOnPage(results: seq<SearchHit>, n: int): (r: seq<SearchHit>)
    ensures |r| <= |results|
    ensures forall h :: h in r <==> h in results && h.page == n
  {
    if results == [] then []
    else (if results[0].page == n then [results[0]] else []) + ResultsOnPage(results[1..], n)
  }

  /** The filter keeps the original order: filtering a concatenation filters each part and
      concatenates the results. */
  lemma {:induction false} ResultsOnPageAppend(a: seq<SearchHit>, b: seq<SearchHit>, n: int)
    ensures ResultsOnPage(a + b, n) == ResultsOnPage(a, n) + ResultsOnPage(b, n)
    decreases |a|
  {
    if a != [] {
      assert (a + b)[1..] == a[1..] + b;
      ResultsOnPageAppend(a[1..], b, n);
    } else {
      assert a + b == b;
    }
  }

  // ---------------------------------------------------------------------------------------
  // highlightText

  const MarkOpen: string := "<mark class=\"bg-yellow-200 text-yellow-900 rounded px-1\">"
  const MarkClose: string := "</mark>"

  /** Characters with a meaning in a JavaScript regular expression; the model covers queries
      without them, which the regular expression then matches literally. */
  predicate NoRegexMeta(q: string)
  {
    forall i :: 0 <= i < |q| ==> q[i] !in "^$\\.*+?()[]{}|"
  }

  /** s starts with an occurrence of q under the fold. */
  predicate MatchAt(s: string, q: string, fold: char -> char)
  {
    |q| <= |s| && FoldString(s[..|q|], fold) == FoldString(q, fold)
  }

  /** The text cut into copied characters and matched occurrences. */
  datatype Piece = Plain(c: char) | Match(s: string)

  /** The scan of a global regular-expression replace for a literal query: at each position,
      an occurrence starting there is taken whole, otherwise one character is copied. */
  function Pieces(text: string, q: string, fold: char -> char): seq<Piece>
    requires q != []
    decreases |text|
  {
    if text == [] then []
    else if MatchAt(text, q, fold) then [Match(text[..|q|])] + Pieces(text[|q|..], q, fold)
    else [Plain(text[0])] + Pieces(text[1..], q, fold)
  }

  /** The characters the pieces cover. */
  function Flatten(ps: seq<Piece>): string
  {
    if ps == [] then []
    else (match ps[0] case Plain(c) => [c] case Match(s) => s) + Flatten(ps[1..])
  }

  /** The pieces with every occurrence wrapped in the mark element. */
  function Render(ps: seq<Piece>): string
  {
    if ps == [] then []
    else (match ps[0] case Plain(c) => [c] case Match(s) => MarkOpen + s + MarkClose) + Render(ps[1..])
  }

  /** highlightText (PDFViewer.jsx:25-29): the text unchanged when the query is absent or
      empty or highlights are off; otherwise every occurrence, leftmost first and without
      overlap, wrapped in the mark element. */
  function HighlightText(text: string, query: Option<string>, showHighlights: bool, fold: char -> char): (r: string)
    requires query.Some? && showHighlights ==> NoRegexMeta(query.value)
    ensures query.None? || query.value == [] || !showHighlights ==> r == text
  {
    if query.None? || query.value == [] || !showHighlights then text
    else Render(Pieces(text, query.value, fold))
  }

  /** Taking the mark elements out of the highlighted text gives the text back: the pieces
      cover the text exactly, in order. */
  lemma {:induction false} PiecesCoverText(text: string, q: string, fold: char -> char)
    requires q != []
    ensures Flatten(Pieces(text, q, fold)) == text
    decreases |text|
  {
    if text != [] {
      if MatchAt(text, q, fold) {
        PiecesCoverText(text[|q|..], q, fold);
        assert text == text[..|q|] + text[|q|..];
      } else {
        PiecesCoverText(text[1..], q, fold);
        assert text == [text[0]] + text[1..];
      }
    }
  }

  /** A piece agrees with the text from its position on: a match is an occurrence of the
      query (same length, equal under the fold) starting there, and a copied character is
      not the start of one. */
  predicate PieceAgrees(p: Piece, rest: string, q: string, fold: char -> char)
  {
    && (p.Match? ==> MatchAt(rest, q, fold) && p.s == rest[..|q|])
    && (p.Plain? ==> !MatchAt(rest, q, fold))
  }

  /** The scan is leftmost and greedy: every piece agrees with the text from the point the
      scan has reached. */
  lemma {:induction false} PiecesLeftmost(text: string, q: string, fold: char -> char)
    requires q != []
    ensures var ps := Pieces(text, q, fold);
      forall k :: 0 <= k < |ps| ==> PieceAgrees(ps[k], Flatten(ps[k..]), q, fold)
    decreases |text|
  {
    var ps := Pieces(text, q, fold);
    if text != [] {
      PiecesCoverText(text, q, fold);
      assert Flatten(ps) == text;
      if MatchAt(text, q, fold) {
        var rest := text[|q|..];
        PiecesLeftmost(rest, q, fold);
        assert ps == [Match(text[..|q|])] + Pieces(rest, q, fold);
        AgreesShift(ps, Match(text[..|q|]), Pieces(rest, q, fold), q, fold);
      } else {
        var rest := text[1..];
        PiecesLeftmost(rest, q, fold);
        assert ps == [Plain(text[0])] + Pieces(rest, q, fold);
        AgreesShift(ps, Plain(text[0]), Pieces(rest, q, fold), q, fold);
      }
    }
  }

  /** A first piece that agrees with the whole text, followed by pieces that agree with the
      rest, gives pieces that all agree. */
  lemma AgreesShift(ps: seq<Piece>, head: Piece, tail: seq<Piece>, q: string, fold: char -> char)
    requires ps == [head] + tail
    requires PieceAgrees(head, Flatten(ps), q, fold)
    requires forall k :: 0 <= k < |tail| ==> PieceAgrees(tail[k], Flatten(tail[k..]), q, fold)
    ensures forall k :: 0 <= k < |ps| ==> PieceAgrees(ps[k], Flatten(ps[k..]), q, fold)
  {
    forall k | 0 <= k < |ps| ensures PieceAgrees(ps[k], Flatten(ps[k..]), q, fold) {
      if k > 0 {
        assert ps[k..] == tail[k - 1..];
      } else {
        assert ps[0..] == ps;
      }
    }
  }

  /** Outside the marks every character is copied as it is; in particular nothing is
      HTML-escaped. The highlighted text is the rendering of pieces that cover the text. */
  lemma HighlightRoundTrip(text: string, q: string, fold: char -> char)
    requires q != [] && NoRegexMeta(q)
    ensures var ps := Pieces(text, q, fold);
      HighlightText(text, Some(q), true, fold) == Render(ps) && Flatten(ps) == text
  {
    PiecesCoverText(text, q, fold);
  }

  /** Highlighting lengthens the text by the two tags per occurrence. */
  lemma {:induction false} RenderLength(ps: seq<Piece>)
    ensures |Render(ps)| == |Flatten(ps)| + (|MarkOpen| + |MarkClose|) * CountMatches(ps)
  {
    if ps != [] {
      RenderLength(ps[1..]);
    }
  }

  function CountMatches(ps: seq<Piece>): nat
  {
    if ps == [] then 0 else (if ps[0].Match? then 1 else 0) + CountMatches(ps[1..])
  }
}
