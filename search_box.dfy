/** The search box component (client/src/components/SearchBox.jsx): the checks made before a
    search, the recent-search history, and the messages reported to the parent.

    The request itself is asynchronous; its outcome (the results, or a failure with the
    server's detail text if any) is an input of the handler. */
module SearchBox {
  import opened Wrappers
  import opened Chars

  const MaxHistory: nat := 5

  /** How the search request ended. */
  datatype SearchReply = Succeeded | Failed(detail: Option<string>)

  /** What the handler reports to its parent: results passed on, or an error message. */
  datatype Notice = ResultsReported | ErrorReported(message: string)

  /** The pre-search checks (SearchBox.jsx:11-18), in order: a query that is blank after
      JavaScript's trim, then a missing (or empty) selected PDF name. */
  function SearchGuard(query: string, selectedPdf: Option<string>): (err: Option<string>)
    ensures err.None? <==> !IsBlank(query, IsJsSpace) && selectedPdf.Some? && selectedPdf.value != []
    ensures IsBlank(query, IsJsSpace) ==> err == Some("Please enter a search query")
    ensures !IsBlank(query, IsJsSpace) && (selectedPdf.None? || selectedPdf.value == []) ==> err == Some("Please upload a PDF first")
  {
    if Trim(query, IsJsSpace) == [] then Some("Please enter a search query")
    else if selectedPdf.None? || selectedPdf.value == [] then Some("Please upload a PDF first")
    else None
  }

  /** The failure message: the server's detail when it has one, else the fixed text. */
  function FailureText(detail: Option<string>): (msg: string)
    ensures msg != []
    ensures detail.Some? && detail.value != [] ==> msg == detail.value
  {
    if detail.Some? && detail.value != [] then detail.value else "Search failed. Please try again."
  }

  /** prev.filter(item => item !== q). */
  function Without(prev: seq<string>, q: string): (r: seq<string>)
    ensures |r| <= |prev|
    ensures forall x :: x in r <==> x in prev && x != q
  {
    if prev == [] then []
    else (if prev[0] != q then [prev[0]] else []) + Without(prev[1..], q)
  }

  /** The history after a successful search for q (SearchBox.jsx:22-25): q in front of the
      old entries other than q, cut to five. */
  function UpdateHistory(prev: seq<string>, q: string): seq<string>
  {
    var all := [q] + Without(prev, q);
    if |all| <= MaxHistory then all else all[..MaxHistory]
  }

  predicate NoDuplicates(s: seq<string>)
  {
    forall i, j :: 0 <= i < j < |s| ==> s[i] != s[j]
  }

  /** The filter keeps the order of the entries it keeps: filtering a concatenation filters
      each part. */
  lemma {:induction false} WithoutAppend(a: seq<string>, b: seq<string>, q: string)
    ensures Without(a + b, q) == Without(a, q) + Without(b, q)
    decreases |a|
  {
    if a != [] {
      assert (a + b)[1..] == a[1..] + b;
      WithoutAppend(a[1..], b, q);
    } else {
      assert a + b == b;
    }
  }

  lemma {:induction false} WithoutKeepsNoDuplicates(prev: seq<string>, q: string)
    requires NoDuplicates(prev)
    ensures NoDuplicates(Without(prev, q))
    decreases |prev|
  {
    if prev != [] {
      WithoutKeepsNoDuplicates(prev[1..], q);
      var rest := Without(prev[1..], q);
      assert prev[0] !in prev[1..];
      assert prev[0] !in rest;
    }
  }

  /** The new history has five entries, or fewer when there are not that many to keep; it
      starts with the query, holds it exactly once, and the other entries are the old entries
      other than the query, in their old order, as many as room allows. */
  lemma UpdateHistoryFacts(prev: seq<string>, q: string)
    ensures var h := UpdateHistory(prev, q);
      && 1 <= |h| <= MaxHistory
      && |h| == (if 1 + |Without(prev, q)| < MaxHistory then 1 + |Without(prev, q)| else MaxHistory)
      && h[0] == q
      && multiset(h)[q] == 1
      && (forall x :: x in h[1..] ==> x in prev && x != q)
      && h[1..] == Without(prev, q)[..|h| - 1]
      && (|Without(prev, q)| < MaxHistory ==> forall x :: x in prev && x != q ==> x in h)
  {
    HistoryShape(prev, q);
    HistoryQueryOnce(prev, q);
  }

  /** The new history is the query followed by the first entries of the filtered history. */
  lemma HistoryShape(prev: seq<string>, q: string)
    ensures var h := UpdateHistory(prev, q);
      && |h| == (if 1 + |Without(prev, q)| < MaxHistory then 1 + |Without(prev, q)| else MaxHistory)
      && h[0] == q
      && h[1..] == Without(prev, q)[..|h| - 1]
  {
    var w := Without(prev, q);
    var all := [q] + w;
    var h := UpdateHistory(prev, q);
    assert |all| == 1 + |w|;
    assert h == all[..|h|];
    assert all[1..] == w;
    assert h[1..] == w[..|h| - 1];
  }

  /** The query occurs once in the new history; the other entries are old ones. */
  lemma HistoryQueryOnce(prev: seq<string>, q: string)
    ensures var h := UpdateHistory(prev, q);
      && 1 <= |h|
      && multiset(h)[q] == 1
      && (forall x :: x in h[1..] ==> x in prev && x != q)
  {
    var w := Without(prev, q);
    var h := UpdateHistory(prev, q);
    HistoryShape(prev, q);
    forall x | x in h[1..] ensures x in prev && x != q {
      var i :| 0 <= i < |h[1..]| && h[1..][i] == x;
      assert x == w[i];
      assert x in w;
    }
    assert q !in h[1..];
    assert multiset(h[1..])[q] == 0;
    assert h == [q] + h[1..];
    assert multiset(h) == multiset{q} + multiset(h[1..]);
  }

  /** A duplicate-free history stays duplicate-free. */
  lemma UpdateHistoryNoDuplicates(prev: seq<string>, q: string)
    requires NoDuplicates(prev)
    ensures NoDuplicates(UpdateHistory(prev, q))
  {
    WithoutKeepsNoDuplicates(prev, q);
    var w := Without(prev, q);
    var all := [q] + w;
    assert q !in w;
    assert NoDuplicates(all) by {
      forall i, j | 0 <= i < j < |all| ensures all[i] != all[j] {
        if i == 0 {
          assert all[j] == w[j - 1];
        } else {
          assert all[i] == w[i - 1] && all[j] == w[j - 1];
        }
      }
    }
  }

  /** Searching again for the newest entry leaves the history as it is. */
  lemma UpdateHistoryRepeat(prev: seq<string>, q: string)
    requires NoDuplicates(prev) && |prev| <= MaxHistory && prev != [] && prev[0] == q
    ensures UpdateHistory(prev, q) == prev
  {
    assert prev == [q] + prev[1..];
    assert q !in prev[1..];
    WithoutNothing(prev[1..], q);
    assert Without(prev, q) == Without(prev[1..], q);
  }

  lemma {:induction false} WithoutNothing(s: seq<string>, q: string)
    requires q !in s
    ensures Without(s, q) == s
    decreases |s|
  {
    if s != [] {
      WithoutNothing(s[1..], q);
      assert s == [s[0]] + s[1..];
    }
  }

  /** The state of one mounted search box. */
  class SearchBoxState {
    var query: string
    var isSearching: bool
    var history: seq<string>

    /** The history stays short and free of duplicates. */
    predicate Valid()
      reads this
    {
      |history| <= MaxHistory && NoDuplicates(history)
    }

    constructor ()
      ensures query == [] && !isSearching && history == []
      ensures Valid()
    {
      query := [];
      isSearching := false;
      history := [];
    }

    /** handleSearch (SearchBox.jsx:9-32). A failed check reports its message and starts
        nothing; otherwise the search runs, a success records the query in the history and
        passes the results on, a failure reports the server's detail or the fixed text and
        leaves the history alone, and isSearching ends false either way. */
    method HandleSearch(selectedPdf: Option<string>, reply: SearchReply) returns (notice: Notice)
      requires Valid()
      modifies this
      ensures Valid()
      ensures query == old(query)
      ensures SearchGuard(old(query), selectedPdf).Some? ==>
                && notice == ErrorReported(SearchGuard(old(query), selectedPdf).value)
                && history == old(history) && isSearching == old(isSearching)
      ensures SearchGuard(old(query), selectedPdf).None? ==>
                && !isSearching
                && (reply.Succeeded? ==> notice == ResultsReported && history == UpdateHistory(old(history), old(query)))
                && (reply.Failed? ==> notice == ErrorReported(FailureText(reply.detail)) && history == old(history))
    {
      if Trim(query, IsJsSpace) == [] {
        return ErrorReported("Please enter a search query");
      }
      if selectedPdf.None? || selectedPdf.value == [] {
        return ErrorReported("Please upload a PDF first");
      }
      isSearching := true;
      match reply {
        case Succeeded =>
          UpdateHistoryNoDuplicates(history, query);
          UpdateHistoryFacts(history, query);
          history := UpdateHistory(history, query);
          notice := ResultsReported;
        case Failed(detail) =>
          notice := ErrorReported(FailureText(detail));
      }
      isSearching := false;
    }

    /** handleHistoryClick (SearchBox.jsx:34-36): puts the old query back in the box without
        searching. */
    method HandleHistoryClick(historyQuery: string)
      requires Valid()
      modifies this
      ensures Valid()
      ensures query == historyQuery
      ensures history == old(history) && isSearching == old(isSearching)
    {
      query := historyQuery;
    }

    /** handleClearHistory (SearchBox.jsx:38-40). */
    method HandleClearHistory()
      modifies this
      ensures Valid()
      ensures history == []
      ensures query == old(query) && isSearching == old(isSearching)
    {
      history := [];
    }
  }
}
