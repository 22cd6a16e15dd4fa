/** The paging engine of sipg/core.py: `search_ips` and `search_with_details`.
  *
  * Both generators run the same loop: a probe request for page 1 to read `total`, then
  * pages 1..N in order (so page 1 is asked for twice), yielding every match whose
  * `ip_str` is a non-empty IPv4 address, stopping as soon as `max_results` items have
  * been yielded, and sleeping `delay` seconds between pages. The engine is modelled once,
  * over the matches it yields; the two generators only project those matches.
  *
  * A run is described by `SearchRun`, a step-by-step definition that mirrors the
  * loop; `Walk` is the loop itself, proved to compute it. PagingProperties relates
  * `SearchRun` to independent definitions of what the run should yield and request. */
module Paging {
  import opened Wrappers
  import opened Basics
  import opened Shodan
  import Address
  import Configuration

  const ResultsPerPage: int := 100

  /** `if max_results:` is false for None and for 0, so both mean "no cap". */
  predicate HasCap(maxResults: Option<int>) {
    maxResults.Some? && maxResults.value != 0
  }

  /** `(n + results_per_page - 1) // results_per_page`. Python's `//` rounds towards minus
    * infinity, which for a positive divisor is what Dafny's `/` does. */
  function CeilPages(n: int): int {
    (n + ResultsPerPage - 1) / ResultsPerPage
  }

  /** `total_pages`, capped by the pages `max_results` needs when a cap is given. */
  function TotalPages(total: int, maxResults: Option<int>): int {
    if HasCap(maxResults) then Min(CeilPages(total), CeilPages(maxResults.value))
    else CeilPages(total)
  }

  /** `ip and self._is_valid_ipv4(ip)`. */
  predicate Selected(m: Match) {
    m.ipStr.Some? && m.ipStr.value != "" && Address.IsIPv4(m.ipStr.value)
  }

  /** `response.get('matches', [])`. */
  function MatchesOf(r: Response): seq<Match> {
    r.matches.GetOr([])
  }

  /** One request event (`_make_request` for a page) or one `time.sleep(delay)`. */
  datatype Event = Request(page: int) | Sleep(seconds: real)

  /** Where a run stands: still walking, or why it ended. */
  datatype Status = Running | NoResults | Completed | Capped | Failed(error: ApiError)

  /** What a generator has yielded (as the matches behind the items), the requests and
    * sleeps it performed, and its status. */
  datatype Run = Run(items: seq<Match>, trace: seq<Event>, status: Status)

  /** The body of `for match in matches:`, counting with `|items|` for `ip_count`. */
  function Visit(r: Run, m: Match, maxResults: Option<int>): Run {
    if r.status != Running || !Selected(m) then r
    else
      var items := r.items + [m];
      Run(items, r.trace, if HasCap(maxResults) && |items| >= maxResults.value then Capped else Running)
  }

  /** The inner loop over the matches of a page. */
  function Scan(r: Run, ms: seq<Match>, maxResults: Option<int>): Run
    decreases |ms|
  {
    if ms == [] then r else Visit(Scan(r, ms[..|ms| - 1], maxResults), ms[|ms| - 1], maxResults)
  }

  /** One iteration of `for page in range(1, total_pages + 1):`. A negative delay makes
    * `time.sleep` raise ValueError, which the generator reports as an unexpected error. */
  function Step(r: Run, page: int, n: int, maxResults: Option<int>, delay: real, fetch: Fetch): Run {
    if r.status != Running then r
    else
      var sent := r.trace + [Request(page)];
      match fetch(page)
      case Err(e) => Run(r.items, sent, Failed(e))
      case Ok(response) =>
        var s := Scan(Run(r.items, sent, Running), MatchesOf(response), maxResults);
        if s.status != Running || page >= n then s
        else if delay < 0.0 then Run(s.items, s.trace, Failed(Unexpected))
        else Run(s.items, s.trace + [Sleep(delay)], Running)
  }

  /** The run after the probe and pages 1..k of an N-page walk. */
  function WalkTo(k: int, n: int, maxResults: Option<int>, delay: real, fetch: Fetch): Run
    decreases k
  {
    if k <= 0 then Run([], [Request(1)], Running)
    else Step(WalkTo(k - 1, n, maxResults, delay, fetch), k, n, maxResults, delay, fetch)
  }

  /** A whole call of the generator, consumed to the end. */
  function SearchRun(apiKey: Configuration.Value, maxResults: Option<int>, delay: real, fetch: Fetch): Run {
    if !Configuration.Truthy(apiKey) then Run([], [], Failed(NotConfigured))
    else
      match fetch(1)
      case Err(e) => Run([], [Request(1)], Failed(e))
      case Ok(probe) =>
        var total := probe.total.GetOr(0);
        if total == 0 then Run([], [Request(1)], NoResults)
        else
          var n := TotalPages(total, maxResults);
          var w := WalkTo(n, n, maxResults, delay, fetch);
          if w.status == Running then Run(w.items, w.trace, Completed) else w
  }

  lemma ScanSnoc(r: Run, ms: seq<Match>, j: int, maxResults: Option<int>)
    requires 0 <= j < |ms|
    ensures Scan(r, ms[..j + 1], maxResults) == Visit(Scan(r, ms[..j], maxResults), ms[j], maxResults)
  {
    assert ms[..j + 1][..j] == ms[..j];
  }

  /** Once a page's scan has stopped, the remaining matches change nothing. */
  lemma {:induction false} ScanStays(r: Run, ms: seq<Match>, j: int, maxResults: Option<int>)
    requires 0 <= j <= |ms|
    requires Scan(r, ms[..j], maxResults).status != Running
    ensures Scan(r, ms, maxResults) == Scan(r, ms[..j], maxResults)
    decreases |ms| - j
  {
    if j < |ms| {
      var init := ms[..|ms| - 1];
      assert init[..j] == ms[..j];
      ScanStays(r, init, j, maxResults);
    } else {
      assert ms[..j] == ms;
    }
  }

  /** Once the walk has stopped, the remaining pages change nothing. */
  lemma {:induction false} WalkStays(k: int, m: int, n: int, maxResults: Option<int>, delay: real, fetch: Fetch)
    requires k <= m
    requires WalkTo(k, n, maxResults, delay, fetch).status != Running
    ensures WalkTo(m, n, maxResults, delay, fetch) == WalkTo(k, n, maxResults, delay, fetch)
    decreases m - k
  {
    if k < m {
      WalkStays(k, m - 1, n, maxResults, delay, fetch);
    }
  }

  /** A failed request on page k of a running walk ends it there. */
  lemma StopOnError(k: int, n: int, maxResults: Option<int>, delay: real, fetch: Fetch)
    requires 1 <= k <= n
    requires WalkTo(k - 1, n, maxResults, delay, fetch).status == Running
    requires fetch(k).Err?
    ensures var w := WalkTo(k - 1, n, maxResults, delay, fetch);
      WalkTo(n, n, maxResults, delay, fetch) == Run(w.items, w.trace + [Request(k)], Failed(fetch(k).error))
  {
    WalkStays(k, n, n, maxResults, delay, fetch);
  }

  /** How page k of a running walk ends, given the scan of its matches: a stopped scan or
    * a negative delay ends the walk; otherwise the walk goes on, sleeping unless k is the
    * last page. */
  lemma PageSettles(k: int, n: int, maxResults: Option<int>, delay: real, fetch: Fetch, s: Run)
    requires 1 <= k <= n
    requires WalkTo(k - 1, n, maxResults, delay, fetch).status == Running
    requires fetch(k).Ok?
    requires var w := WalkTo(k - 1, n, maxResults, delay, fetch);
      s == Scan(Run(w.items, w.trace + [Request(k)], Running), MatchesOf(fetch(k).value), maxResults)
    ensures s.status != Running ==> WalkTo(n, n, maxResults, delay, fetch) == s
    ensures s.status == Running && k < n && delay < 0.0 ==>
      WalkTo(n, n, maxResults, delay, fetch) == Run(s.items, s.trace, Failed(Unexpected))
    ensures s.status == Running && (k == n || delay >= 0.0) ==>
      WalkTo(k, n, maxResults, delay, fetch) == Run(s.items, if k < n then s.trace + [Sleep(delay)] else s.trace, Running)
  {
    if s.status != Running || (k < n && delay < 0.0) {
      WalkStays(k, n, n, maxResults, delay, fetch);
    }
  }

  /** The inner loop over one page's matches: every IPv4 match is kept and counted, and
    * the loop ends once the count reaches a cap. Proved to be `Scan`. */
  method ScanPage(items0: seq<Match>, count0: int, trace: seq<Event>, matches: seq<Match>, maxResults: Option<int>)
    returns (items: seq<Match>, ipCount: int, capped: bool)
    requires count0 == |items0|
    ensures ipCount == |items|
    ensures Scan(Run(items0, trace, Running), matches, maxResults) == Run(items, trace, if capped then Capped else Running)
  {
    ghost var start := Run(items0, trace, Running);
    items, ipCount := items0, count0;
    var j := 0;
    capped := false;
    while j < |matches| && !capped
      invariant 0 <= j <= |matches|
      invariant Scan(start, matches[..j], maxResults) == Run(items, trace, if capped then Capped else Running)
      invariant ipCount == |items|
    {
      var m := matches[j];
      ScanSnoc(start, matches, j, maxResults);
      if Selected(m) {
        ipCount := ipCount + 1;
        items := items + [m];
        capped := HasCap(maxResults) && ipCount >= maxResults.value;
      }
      j := j + 1;
    }
    if capped {
      ScanStays(start, matches, j, maxResults);
    } else {
      assert matches[..j] == matches;
    }
  }

  /** The page loop of the generator, after the probe: pages 1..N, each one requested,
    * scanned and followed by a sleep unless it is the last. Proved to be `WalkTo`. */
  method WalkPages(totalPages: int, maxResults: Option<int>, delay: real, fetch: Fetch) returns (r: Run)
    ensures r == WalkTo(totalPages, totalPages, maxResults, delay, fetch)
  {
    var items: seq<Match> := [];
    var ipCount := 0;
    var trace := [Request(1)];
    var page := 1;
    while page <= totalPages
      invariant 1 <= page <= Max(totalPages, 0) + 1
      invariant WalkTo(page - 1, totalPages, maxResults, delay, fetch) == Run(items, trace, Running)
      invariant ipCount == |items|
    {
      trace := trace + [Request(page)];
      var response := fetch(page);
      if response.Err? {
        StopOnError(page, totalPages, maxResults, delay, fetch);
        return Run(items, trace, Failed(response.error));
      }
      var capped;
      items, ipCount, capped := ScanPage(items, ipCount, trace, MatchesOf(response.value), maxResults);
      PageSettles(page, totalPages, maxResults, delay, fetch, Run(items, trace, if capped then Capped else Running));
      if capped {
        return Run(items, trace, Capped);
      }
      if page < totalPages {
        if delay < 0.0 {
          return Run(items, trace, Failed(Unexpected));
        }
        trace := trace + [Sleep(delay)];
      }
      page := page + 1;
    }
    r := Run(items, trace, Running);
  }

  /** The generator. It returns the run the generator produces when consumed to the end:
    * the matches behind the yielded items, the requests and sleeps, the status. */
  method Walk(apiKey: Configuration.Value, maxResults: Option<int>, delay: real, fetch: Fetch) returns (r: Run)
    ensures r == SearchRun(apiKey, maxResults, delay, fetch)
  {
    if !Configuration.Truthy(apiKey) {
      return Run([], [], Failed(NotConfigured));
    }
    var initial := fetch(1);
    if initial.Err? {
      return Run([], [Request(1)], Failed(initial.error));
    }
    var totalResults := initial.value.total.GetOr(0);
    if totalResults == 0 {
      return Run([], [Request(1)], NoResults);
    }
    var totalPages := (totalResults + ResultsPerPage - 1) / ResultsPerPage;
    if HasCap(maxResults) {
      totalPages := Min(totalPages, (maxResults.value + ResultsPerPage - 1) / ResultsPerPage);
    }
    assert totalPages == TotalPages(totalResults, maxResults);
    var w := WalkPages(totalPages, maxResults, delay, fetch);
    if w.status == Running {
      r := Run(w.items, w.trace, Completed);
    } else {
      r := w;
    }
  }
}
