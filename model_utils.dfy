/** The text-search side of the search model (server/models/model_utils.py): which PDF pages
    take part in a search, and how the page similarities become the response — relevance
    threshold, 200-character snippets, a stable descending sort by score and the top ten.

    The PDF reader and the embedding model are outside the model: the reader's per-page texts
    and the cosine similarities of the query to each page are inputs. */
module ModelUtils {
  import opened Chars
  import opened StableSort

  /** One extracted page: its 1-based number and its stripped text. */
  datatype PageText = PageText(page: int, text: string)

  /** One search hit: page number, snippet, similarity score and the whole page text. */
  datatype Hit = Hit(page: int, text: string, score: real, fullText: string)

  /** The search response: either the no-text answer or the ranked hits. */
  datatype SearchResponse =
    | NoText(results: seq<Hit>, message: string)
    | Found(results: seq<Hit>, totalPages: nat, query: string)

  const Threshold: real := 0.1
  const SnippetLength: nat := 200
  const MaxResults: nat := 10

  // ---------------------------------------------------------------------------------------
  // extract_text_from_pdf

  /** The pages extract_text_from_pdf keeps from the reader's per-page texts: the non-blank
      ones, stripped, numbered from 1 by their position in the document. */
  function ExtractedPages(raw: seq<string>): seq<PageText>
  {
    if raw == [] then []
    else
      var last := raw[|raw| - 1];
      ExtractedPages(raw[..|raw| - 1])
        + (if HasText(last) then [PageText(|raw|, Trim(last, IsPySpace))] else [])
  }

  /** The page text has a non-whitespace character (Python's `text.strip()` is truthy). */
  predicate HasText(s: string)
  {
    !IsBlank(s, IsPySpace)
  }

  /** extract_text_from_pdf (model_utils.py:44-59). A read error part-way through returns the
      pages gathered so far; that corresponds to passing the texts read before the error. */
  method ExtractTextFromPdf(raw: seq<string>) returns (textPages: seq<PageText>)
    ensures textPages == ExtractedPages(raw)
  {
    textPages := [];
    var pageNum := 0;
    while pageNum < |raw|
      invariant 0 <= pageNum <= |raw|
      invariant textPages == ExtractedPages(raw[..pageNum])
    {
      assert raw[..pageNum + 1][..pageNum] == raw[..pageNum];
      var text := raw[pageNum];
      if Trim(text, IsPySpace) != [] {
        textPages := textPages + [PageText(pageNum + 1, Trim(text, IsPySpace))];
      }
      pageNum := pageNum + 1;
    }
    assert raw[..pageNum] == raw;
  }

  /** p is the extraction of page p.page of raw: that page is not blank and p.text is its
      strip, which is non-empty (and its own strip, by TrimIdempotent). */
  ghost predicate ExtractedFrom(p: PageText, raw: seq<string>)
  {
    && 1 <= p.page <= |raw|
    && HasText(raw[p.page - 1])
    && p.text == Trim(raw[p.page - 1], IsPySpace)
    && p.text != []
  }

  /** Every extracted page comes from a non-blank page of the document, stripped. */
  lemma {:induction false} ExtractedPagesSound(raw: seq<string>, k: nat)
    requires k < |ExtractedPages(raw)|
    ensures ExtractedFrom(ExtractedPages(raw)[k], raw)
  {
    var init := raw[..|raw| - 1];
    var prev := ExtractedPages(init);
    var ps := ExtractedPages(raw);
    assert ps[..|prev|] == prev;
    if k < |prev| {
      ExtractedPagesSound(init, k);
      assert ps[k] == prev[k];
      assert raw[prev[k].page - 1] == init[prev[k].page - 1];
    }
  }

  /** Extracted pages come in strictly increasing page order, within the document. */
  lemma {:induction false} ExtractedPagesOrdered(raw: seq<string>)
    ensures forall k :: 0 <= k < |ExtractedPages(raw)| ==> 1 <= ExtractedPages(raw)[k].page <= |raw|
    ensures forall a, b :: 0 <= a < b < |ExtractedPages(raw)| ==>
              ExtractedPages(raw)[a].page < ExtractedPages(raw)[b].page
  {
    if raw != [] {
      var init := raw[..|raw| - 1];
      ExtractedPagesOrdered(init);
      var prev := ExtractedPages(init);
      var ps := ExtractedPages(raw);
      assert ps[..|prev|] == prev;
      forall k | 0 <= k < |ps| ensures 1 <= ps[k].page <= |raw| {
        if k < |prev| {
          assert ps[k] == prev[k];
        }
      }
      forall a, b | 0 <= a < b < |ps| ensures ps[a].page < ps[b].page {
        assert ps[a] == prev[a];
        if b < |prev| {
          assert ps[b] == prev[b];
        }
      }
    }
  }

  /** Every non-blank page of the document is extracted. */
  lemma {:induction false} ExtractedPagesComplete(raw: seq<string>, i: nat)
    requires i < |raw| && HasText(raw[i])
    ensures exists k :: 0 <= k < |ExtractedPages(raw)| && ExtractedPages(raw)[k].page == i + 1
  {
    var init := raw[..|raw| - 1];
    var prev := ExtractedPages(init);
    var ps := ExtractedPages(raw);
    assert ps[..|prev|] == prev;
    if i < |raw| - 1 {
      assert init[i] == raw[i];
      ExtractedPagesComplete(init, i);
      var k :| 0 <= k < |prev| && prev[k].page == i + 1;
      assert ps[k] == prev[k];
    } else {
      assert ps[|ps| - 1].page == i + 1;
    }
  }

  // ---------------------------------------------------------------------------------------
  // search_text_sync, after the similarities are known

  /** The snippet of a page text: the text itself up to 200 characters, otherwise its first
      200 characters followed by "...". */
  function Snippet(text: string): (r: string)
    ensures |text| <= SnippetLength ==> r == text
    ensures |text| > SnippetLength ==> |r| == SnippetLength + 3 && r[..SnippetLength] == text[..SnippetLength] && r[SnippetLength..] == "..."
  {
    if |text| > SnippetLength then text[..SnippetLength] + "..." else text
  }

  /** Python's zip over the pages and the similarities: pairs up to the shorter length. */
  function Zip(pages: seq<PageText>, similarities: seq<real>): (z: seq<(PageText, real)>)
    ensures |z| <= |pages| && |z| <= |similarities|
    ensures |z| == |pages| || |z| == |similarities|
    ensures forall i :: 0 <= i < |z| ==> z[i] == (pages[i], similarities[i])
  {
    var n := if |pages| <= |similarities| then |pages| else |similarities|;
    seq(n, i requires 0 <= i < n => (pages[i], similarities[i]))
  }

  function HitOf(p: PageText, similarity: real): Hit
  {
    Hit(p.page, Snippet(p.text), similarity, p.text)
  }

  function HitScore(h: Hit): real
  {
    h.score
  }

  /** The hits above the threshold, in page order. */
  function Relevant(pairs: seq<(PageText, real)>): seq<Hit>
  {
    if pairs == [] then []
    else
      var last := pairs[|pairs| - 1];
      Relevant(pairs[..|pairs| - 1]) + (if last.1 > Threshold then [HitOf(last.0, last.1)] else [])
  }

  /** The hits ranked by score, highest first, ties in page order. */
  function Ranked(pairs: seq<(PageText, real)>): seq<Hit>
  {
    SortDescending(Relevant(pairs), HitScore)
  }

  /** The response of search_text_sync for the extracted pages and their similarities. */
  function SearchResponseFor(pages: seq<PageText>, similarities: seq<real>, query: string): SearchResponse
  {
    if pages == [] then NoText([], "No text found in PDF")
    else Found(Take(Ranked(Zip(pages, similarities)), MaxResults), |pages|, query)
  }

  /** search_text_sync (model_utils.py:100-136) once the similarities are known. */
  method SearchTextSync(textPages: seq<PageText>, similarities: seq<real>, query: string)
    returns (response: SearchResponse)
    ensures response == SearchResponseFor(textPages, similarities, query)
  {
    if textPages == [] {
      return NoText([], "No text found in PDF");
    }
    var pairs := Zip(textPages, similarities);
    var results: seq<Hit> := [];
    var i := 0;
    while i < |pairs|
      invariant 0 <= i <= |pairs|
      invariant results == Relevant(pairs[..i])
    {
      assert pairs[..i + 1][..i] == pairs[..i];
      var (page, similarity) := pairs[i];
      if similarity > Threshold {
        var text := if |page.text| > SnippetLength then page.text[..SnippetLength] + "..." else page.text;
        results := results + [Hit(page.page, text, similarity, page.text)];
      }
      i := i + 1;
    }
    assert pairs[..i] == pairs;
    results := SortDescending(results, HitScore);
    response := Found(Take(results, MaxResults), |textPages|, query);
  }

  /** h is the hit of some page i of the zip: its number, snippet, whole text and score come
      from that page and its similarity, which is above the threshold. */
  ghost predicate HitFrom(h: Hit, pairs: seq<(PageText, real)>)
  {
    exists i :: 0 <= i < |pairs| && pairs[i].1 > Threshold && h == HitOf(pairs[i].0, pairs[i].1)
  }

  /** Every relevant hit comes from a page whose similarity is above the threshold. */
  lemma {:induction false} RelevantSound(pairs: seq<(PageText, real)>)
    ensures forall k :: 0 <= k < |Relevant(pairs)| ==> HitFrom(Relevant(pairs)[k], pairs)
  {
    if pairs != [] {
      var init := pairs[..|pairs| - 1];
      RelevantSound(init);
      var prev := Relevant(init);
      var rs := Relevant(pairs);
      assert rs[..|prev|] == prev;
      forall k | 0 <= k < |rs| ensures HitFrom(rs[k], pairs) {
        if k < |prev| {
          assert rs[k] == prev[k];
          assert HitFrom(prev[k], init);
          var i :| 0 <= i < |init| && init[i].1 > Threshold && prev[k] == HitOf(init[i].0, init[i].1);
          assert pairs[i] == init[i];
        } else {
          assert rs[k] == HitOf(pairs[|pairs| - 1].0, pairs[|pairs| - 1].1);
        }
      }
    }
  }

  /** Every page whose similarity is above the threshold yields a relevant hit. */
  lemma {:induction false} RelevantComplete(pairs: seq<(PageText, real)>, i: nat)
    requires i < |pairs| && pairs[i].1 > Threshold
    ensures HitOf(pairs[i].0, pairs[i].1) in Relevant(pairs)
  {
    var init := pairs[..|pairs| - 1];
    if i < |init| {
      assert init[i] == pairs[i];
      RelevantComplete(init, i);
    }
  }

  /** Properties of a found response: the page count and the query are echoed, at most ten
      hits are returned, each is a relevant hit (score above the threshold, snippet and whole
      text of its page), scores never increase, and every relevant hit is returned when there
      are at most ten. */
  lemma SearchResponseFacts(pages: seq<PageText>, similarities: seq<real>, query: string)
    ensures var resp := SearchResponseFor(pages, similarities, query);
      && (pages == [] <==> resp.NoText?)
      && (resp.NoText? ==> resp.results == [] && resp.message == "No text found in PDF")
      && (resp.Found? ==>
            && resp.totalPages == |pages| && resp.query == query
            && |resp.results| <= MaxResults
            && (forall k :: 0 <= k < |resp.results| ==>
                  HitFrom(resp.results[k], Zip(pages, similarities)) && resp.results[k].score > Threshold)
            && NonIncreasing(resp.results, HitScore)
            && (|Relevant(Zip(pages, similarities))| <= MaxResults ==>
                  multiset(resp.results) == multiset(Relevant(Zip(pages, similarities)))))
  {
    var resp := SearchResponseFor(pages, similarities, query);
    if pages != [] {
      var pairs := Zip(pages, similarities);
      var rel := Relevant(pairs);
      var ranked := Ranked(pairs);
      RelevantSound(pairs);
      var results := resp.results;
      assert results == Take(ranked, MaxResults);
      forall k | 0 <= k < |results|
        ensures HitFrom(results[k], pairs) && results[k].score > Threshold
      {
        assert results[k] == ranked[k];
        assert ranked[k] in multiset(rel);
        var j :| 0 <= j < |rel| && rel[j] == ranked[k];
        assert HitFrom(rel[j], pairs);
      }
      TakeKeepsLargest(ranked, HitScore, MaxResults);
    }
  }

  /** No relevant hit that is left out of the top ten scores higher than one that is kept. */
  lemma DroppedNeverOutscores(pages: seq<PageText>, similarities: seq<real>, query: string, h: Hit)
    requires pages != []
    requires h in Relevant(Zip(pages, similarities)) && h !in SearchResponseFor(pages, similarities, query).results
    ensures forall k :: 0 <= k < |SearchResponseFor(pages, similarities, query).results| ==>
              h.score <= SearchResponseFor(pages, similarities, query).results[k].score
  {
    var ranked := Ranked(Zip(pages, similarities));
    var results := SearchResponseFor(pages, similarities, query).results;
    assert h in multiset(ranked);
    var j :| 0 <= j < |ranked| && ranked[j] == h;
    forall k | 0 <= k < |results| ensures h.score <= results[k].score {
      assert results[k] == ranked[k];
    }
  }

  /** Stability: among hits with equal scores the ranking keeps page order. */
  lemma RankedStable(pairs: seq<(PageText, real)>, v: real)
    ensures WithKey(Ranked(pairs), HitScore, v) == WithKey(Relevant(pairs), HitScore, v)
  {
    SortStable(Relevant(pairs), HitScore, v);
  }

  // ---------------------------------------------------------------------------------------
  // highlight_text

  /** highlight_text (model_utils.py:138-150): it walks the lower-cased query words but marks
      nothing, so the text comes back unchanged. */
  method HighlightText(text: string, query: string, fold: char -> char) returns (highlighted: string)
    ensures highlighted == text
  {
    if query == [] {
      return text;
    }
    highlighted := text;
    var words := PySplit(FoldString(query, fold));
    var i := 0;
    while i < |words|
      invariant 0 <= i <= |words|
      invariant highlighted == text
    {
      i := i + 1;
    }
  }
}
