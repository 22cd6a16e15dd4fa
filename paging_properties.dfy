/** What a run of the sipg/core.py generators yields and requests, stated against
  * definitions that do not follow the loop: the IPv4 filter of each page (`Eligible`),
  * the concatenation of those over pages 1..N (`Harvest`) and the request/sleep schedule
  * of a full walk (`Visits`). */
module PagingProperties {
  import opened Wrappers
  import opened Basics
  import opened Shodan
  import opened Paging
  import Configuration

  /** The matches of a page that the generator keeps, in response order. */
  function Eligible(ms: seq<Match>): seq<Match>
    decreases |ms|
  {
    if ms == [] then []
    else Eligible(ms[..|ms| - 1]) + (if Selected(ms[|ms| - 1]) then [ms[|ms| - 1]] else [])
  }

  /** Exactly the selected matches are kept. */
  lemma {:induction false} EligibleMembers(ms: seq<Match>)
    ensures forall x :: x in Eligible(ms) <==> x in ms && Selected(x)
    decreases |ms|
  {
    if ms != [] {
      EligibleMembers(ms[..|ms| - 1]);
      assert ms == ms[..|ms| - 1] + [ms[|ms| - 1]];
    }
  }

  /** Filtering two pages one after the other is filtering their concatenation. */
  lemma {:induction false} EligibleAppend(a: seq<Match>, b: seq<Match>)
    ensures Eligible(a + b) == Eligible(a) + Eligible(b)
    decreases |b|
  {
    if b == [] {
      assert a + b == a;
    } else {
      assert (a + b)[..|a + b| - 1] == a + b[..|b| - 1];
      EligibleAppend(a, b[..|b| - 1]);
    }
  }

  /** What page p contributes: its kept matches, nothing when its request failed. */
  function PageYield(r: Result<Response, ApiError>): seq<Match> {
    match r
    case Ok(response) => Eligible(MatchesOf(response))
    case Err(_) => []
  }

  /** The kept matches of pages 1..k, page after page. */
  function Harvest(fetch: Fetch, k: int): seq<Match>
    decreases k
  {
    if k <= 0 then [] else Harvest(fetch, k - 1) + PageYield(fetch(k))
  }

  ghost predicate AllOk(fetch: Fetch, k: int) {
    forall p :: 1 <= p <= k ==> fetch(p).Ok?
  }

  /** The requests and sleeps of pages 1..k of an N-page walk: each page is requested,
    * and a sleep follows it exactly when it is not page N. */
  function Visits(k: int, n: int, delay: real): seq<Event>
    decreases k
  {
    if k <= 0 then []
    else Visits(k - 1, n, delay) + [Request(k)] + (if k < n then [Sleep(delay)] else [])
  }

  function RequestedPage(e: Event): Option<int> {
    if e.Request? then Some(e.page) else None
  }

  function SleepLength(e: Event): Option<real> {
    if e.Sleep? then Some(e.seconds) else None
  }

  /** The pages requested, in order. */
  function PagesRequested(t: seq<Event>): seq<int> {
    Pick(t, RequestedPage)
  }

  /** The sleeps, in order. */
  function Sleeps(t: seq<Event>): seq<real> {
    Pick(t, SleepLength)
  }

  /** `max_results` caps, and the walk holds at least that many results. */
  predicate CapReached(h: seq<Match>, maxResults: Option<int>) {
    HasCap(maxResults) && 0 < maxResults.value <= |h|
  }

  /** `(n + 99) // 100` is the least page count whose pages hold n results. */
  lemma CeilPagesBounds(x: int)
    ensures (CeilPages(x) - 1) * ResultsPerPage < x <= CeilPages(x) * ResultsPerPage
  {
  }

  /** The page count of the walk is the least one whose pages hold the results wanted:
    * `total`, or `min(total, max_results)` under a cap. So a cap that is a multiple of
    * 100 asks for no extra page. */
  lemma TotalPagesFit(total: int, maxResults: Option<int>)
    ensures var n := TotalPages(total, maxResults);
      var wanted := if HasCap(maxResults) then Min(total, maxResults.value) else total;
      (n - 1) * ResultsPerPage < wanted <= n * ResultsPerPage
  {
    CeilPagesBounds(total);
    if HasCap(maxResults) {
      CeilPagesBounds(maxResults.value);
    }
  }

  lemma PageCountExamples()
    ensures TotalPages(250, None) == 3 && TotalPages(250, Some(0)) == 3
    ensures TotalPages(250, Some(120)) == 2 && TotalPages(250, Some(200)) == 2
    ensures TotalPages(250, Some(1000)) == 3 && TotalPages(100, None) == 1
  {
  }

  /** The inner loop keeps the selected matches of the page after the items so far and
    * stops at the cap, leaving the trace alone. */
  lemma {:induction false} ScanSpec(items: seq<Match>, t: seq<Event>, ms: seq<Match>, maxResults: Option<int>)
    requires !HasCap(maxResults) || |items| < maxResults.value
    ensures var s := Scan(Run(items, t, Running), ms, maxResults);
      var all := items + Eligible(ms);
      s.trace == t &&
      if HasCap(maxResults) && |all| >= maxResults.value
      then s.status == Capped && s.items == all[..maxResults.value]
      else s.status == Running && s.items == all
    decreases |ms|
  {
    if ms != [] {
      var init, x := ms[..|ms| - 1], ms[|ms| - 1];
      ScanSpec(items, t, init, maxResults);
      var before := items + Eligible(init);
      var extra := if Selected(x) then [x] else [];
      assert items + Eligible(ms) == before + extra;
      if HasCap(maxResults) && |before| >= maxResults.value {
        assert (before + extra)[..maxResults.value] == before[..maxResults.value];
      }
    }
  }

  /** The invariant of the page walk after page k, against the reference definitions. */
  ghost predicate WalkInvariant(w: Run, k: int, n: int, maxResults: Option<int>, delay: real, fetch: Fetch) {
    var h := Harvest(fetch, k);
    && (w.status == Running || w.status == Capped || w.status.Failed?)
    && IsPrefix(w.items, h)
    && (w.status == Running ==>
          && w.items == h && AllOk(fetch, k)
          && w.trace == [Request(1)] + Visits(k, n, delay)
          && !CapReached(h, maxResults))
    && (w.status == Capped ==> HasCap(maxResults) && |w.items| == maxResults.value)
    && (w.status.Failed? ==> HasCap(maxResults) ==> |w.items| < maxResults.value)
    && (w.status != Running ==>
          exists s :: 1 <= s <= k && w.trace == [Request(1)] + Visits(s - 1, n, delay) + [Request(s)])
    && (AllOk(fetch, k) && (delay >= 0.0 || n <= 1) ==> !w.status.Failed?)
  }

  /** The facts `WalkInvariant` asks of a walk still running after page k - 1. */
  ghost predicate RunningAfter(prev: Run, k: int, n: int, maxResults: Option<int>, delay: real, fetch: Fetch) {
    && 1 <= k <= n
    && (HasCap(maxResults) ==> maxResults.value > 0)
    && prev.status == Running && prev.items == Harvest(fetch, k - 1) && AllOk(fetch, k - 1)
    && prev.trace == [Request(1)] + Visits(k - 1, n, delay)
    && !CapReached(Harvest(fetch, k - 1), maxResults)
  }

  /** Page k of a running walk whose request fails. */
  lemma StepFails(prev: Run, k: int, n: int, maxResults: Option<int>, delay: real, fetch: Fetch)
    requires RunningAfter(prev, k, n, maxResults, delay, fetch)
    requires fetch(k).Err?
    ensures WalkInvariant(Step(prev, k, n, maxResults, delay, fetch), k, n, maxResults, delay, fetch)
  {
    var w := Step(prev, k, n, maxResults, delay, fetch);
    assert w == Run(prev.items, prev.trace + [Request(k)], Failed(fetch(k).error));
    assert IsPrefix(Harvest(fetch, k - 1), Harvest(fetch, k));
    assert w.trace == [Request(1)] + Visits(k - 1, n, delay) + [Request(k)];
  }

  /** The scan of page k's matches in a running walk, as `Step` performs it. */
  function PageScanOf(prev: Run, k: int, maxResults: Option<int>, fetch: Fetch): Run
    requires fetch(k).Ok?
  {
    Scan(Run(prev.items, prev.trace + [Request(k)], Running), MatchesOf(fetch(k).value), maxResults)
  }

  /** What the scan of an answered page k keeps, against the reference. */
  lemma PageScanFacts(prev: Run, k: int, n: int, maxResults: Option<int>, delay: real, fetch: Fetch)
    requires RunningAfter(prev, k, n, maxResults, delay, fetch)
    requires fetch(k).Ok?
    ensures var s := PageScanOf(prev, k, maxResults, fetch);
      var h := Harvest(fetch, k);
      && AllOk(fetch, k)
      && s.trace == [Request(1)] + Visits(k - 1, n, delay) + [Request(k)]
      && (if CapReached(h, maxResults)
          then s.status == Capped && s.items == h[..maxResults.value]
          else s.status == Running && s.items == h)
  {
    var ms := MatchesOf(fetch(k).value);
    ScanSpec(prev.items, prev.trace + [Request(k)], ms, maxResults);
    assert prev.items + Eligible(ms) == Harvest(fetch, k);
  }

  /** Page k answered, the cap not reached, and a sleep to follow: the walk runs on. */
  lemma StepRunsOn(prev: Run, k: int, n: int, maxResults: Option<int>, delay: real, fetch: Fetch)
    requires RunningAfter(prev, k, n, maxResults, delay, fetch)
    requires fetch(k).Ok? && PageScanOf(prev, k, maxResults, fetch).status == Running && k < n && delay >= 0.0
    ensures var s := PageScanOf(prev, k, maxResults, fetch);
      Step(prev, k, n, maxResults, delay, fetch) == Run(s.items, s.trace + [Sleep(delay)], Running)
    ensures WalkInvariant(Step(prev, k, n, maxResults, delay, fetch), k, n, maxResults, delay, fetch)
  {
    var s := PageScanOf(prev, k, maxResults, fetch);
    PageScanFacts(prev, k, n, maxResults, delay, fetch);
    var w := Step(prev, k, n, maxResults, delay, fetch);
    assert w == Run(s.items, s.trace + [Sleep(delay)], Running);
    var before := Visits(k - 1, n, delay);
    assert Visits(k, n, delay) == before + [Request(k)] + [Sleep(delay)];
    calc {
      w.trace;
      ([Request(1)] + before + [Request(k)]) + [Sleep(delay)];
      [Request(1)] + (before + [Request(k)] + [Sleep(delay)]);
      [Request(1)] + Visits(k, n, delay);
    }
  }

  /** Page k answered, the cap not reached, and a negative sleep to follow: it raises. */
  lemma StepSleepRaises(prev: Run, k: int, n: int, maxResults: Option<int>, delay: real, fetch: Fetch)
    requires RunningAfter(prev, k, n, maxResults, delay, fetch)
    requires fetch(k).Ok? && PageScanOf(prev, k, maxResults, fetch).status == Running && k < n && delay < 0.0
    ensures var s := PageScanOf(prev, k, maxResults, fetch);
      Step(prev, k, n, maxResults, delay, fetch) == Run(s.items, s.trace, Failed(Unexpected))
    ensures Step(prev, k, n, maxResults, delay, fetch).items == Harvest(fetch, k)
    ensures WalkInvariant(Step(prev, k, n, maxResults, delay, fetch), k, n, maxResults, delay, fetch)
  {
    var s := PageScanOf(prev, k, maxResults, fetch);
    PageScanFacts(prev, k, n, maxResults, delay, fetch);
    var w := Step(prev, k, n, maxResults, delay, fetch);
    assert w == Run(s.items, s.trace, Failed(Unexpected));
    assert IsPrefix(w.items, Harvest(fetch, k));
  }

  /** Page k answered and either the cap reached or the last page done: the scan's
    * result stands. */
  lemma StepEnds(prev: Run, k: int, n: int, maxResults: Option<int>, delay: real, fetch: Fetch)
    requires RunningAfter(prev, k, n, maxResults, delay, fetch)
    requires fetch(k).Ok? && (PageScanOf(prev, k, maxResults, fetch).status != Running || k == n)
    ensures Step(prev, k, n, maxResults, delay, fetch) == PageScanOf(prev, k, maxResults, fetch)
    ensures WalkInvariant(Step(prev, k, n, maxResults, delay, fetch), k, n, maxResults, delay, fetch)
  {
    var s := PageScanOf(prev, k, maxResults, fetch);
    PageScanFacts(prev, k, n, maxResults, delay, fetch);
    var w := Step(prev, k, n, maxResults, delay, fetch);
    assert w == s;
    if s.status == Running {
      var before := Visits(k - 1, n, delay);
      assert Visits(k, n, delay) == before + [Request(k)] + [];
      calc {
        w.trace;
        [Request(1)] + before + [Request(k)];
        [Request(1)] + (before + [Request(k)] + []);
        [Request(1)] + Visits(k, n, delay);
      }
    } else {
      assert w.trace == [Request(1)] + Visits(k - 1, n, delay) + [Request(k)];
    }
  }

  /** Page k of a running walk whose request is answered. */
  lemma StepAnswered(prev: Run, k: int, n: int, maxResults: Option<int>, delay: real, fetch: Fetch)
    requires RunningAfter(prev, k, n, maxResults, delay, fetch)
    requires fetch(k).Ok?
    ensures WalkInvariant(Step(prev, k, n, maxResults, delay, fetch), k, n, maxResults, delay, fetch)
  {
    var s := PageScanOf(prev, k, maxResults, fetch);
    if s.status == Running && k < n && delay >= 0.0 {
      StepRunsOn(prev, k, n, maxResults, delay, fetch);
    } else if s.status == Running && k < n {
      StepSleepRaises(prev, k, n, maxResults, delay, fetch);
    } else {
      StepEnds(prev, k, n, maxResults, delay, fetch);
    }
  }

  /** Page k of a walk that has stopped: nothing changes. */
  lemma StepStopped(prev: Run, k: int, n: int, maxResults: Option<int>, delay: real, fetch: Fetch)
    requires 1 <= k
    requires prev.status != Running
    requires WalkInvariant(prev, k - 1, n, maxResults, delay, fetch)
    ensures WalkInvariant(Step(prev, k, n, maxResults, delay, fetch), k, n, maxResults, delay, fetch)
  {
    var hPrev, h := Harvest(fetch, k - 1), Harvest(fetch, k);
    assert IsPrefix(hPrev, h);
    var s :| 1 <= s <= k - 1 && prev.trace == [Request(1)] + Visits(s - 1, n, delay) + [Request(s)];
    assert 1 <= s <= k;
  }

  /** The loop invariant holds after every page of the walk. */
  lemma {:induction false} WalkSpec(k: int, n: int, maxResults: Option<int>, delay: real, fetch: Fetch)
    requires k <= n
    requires HasCap(maxResults) && maxResults.value < 0 ==> n <= 0
    ensures WalkInvariant(WalkTo(k, n, maxResults, delay, fetch), k, n, maxResults, delay, fetch)
    decreases k
  {
    if k > 0 {
      WalkSpec(k - 1, n, maxResults, delay, fetch);
      var prev := WalkTo(k - 1, n, maxResults, delay, fetch);
      assert WalkTo(k, n, maxResults, delay, fetch) == Step(prev, k, n, maxResults, delay, fetch);
      if prev.status == Running {
        if fetch(k).Err? {
          StepFails(prev, k, n, maxResults, delay, fetch);
        } else {
          StepAnswered(prev, k, n, maxResults, delay, fetch);
        }
      } else {
        StepStopped(prev, k, n, maxResults, delay, fetch);
      }
    }
  }

  /** A run that passes the probe: the key is truthy and page 1 reports a non-zero total. */
  predicate Probed(apiKey: Configuration.Value, fetch: Fetch) {
    Configuration.Truthy(apiKey) && fetch(1).Ok? && fetch(1).value.total.GetOr(0) != 0
  }

  /** The page count of a run that passed the probe. */
  function PageCount(fetch: Fetch, maxResults: Option<int>): int
    requires fetch(1).Ok?
  {
    TotalPages(fetch(1).value.total.GetOr(0), maxResults)
  }

  /** Before the walk: without a key nothing is requested; a failed probe or a total of
    * zero (also a missing one) ends the run after that one request, yielding nothing. */
  lemma ProbeOutcomes(apiKey: Configuration.Value, maxResults: Option<int>, delay: real, fetch: Fetch)
    ensures var r := SearchRun(apiKey, maxResults, delay, fetch);
      && (!Configuration.Truthy(apiKey) ==> r == Run([], [], Failed(NotConfigured)))
      && (Configuration.Truthy(apiKey) && fetch(1).Err? ==> r == Run([], [Request(1)], Failed(fetch(1).error)))
      && (Configuration.Truthy(apiKey) && fetch(1).Ok? && fetch(1).value.total.GetOr(0) == 0 ==>
            r == Run([], [Request(1)], NoResults))
  {
  }

  /** What a run yields. The items are always the first items of the harvest of pages
    * 1..N; a completed walk yields all of it; the walk is capped exactly when it yielded
    * `max_results` items, and never yields more. When every page answers and sleeping
    * succeeds, the items are the harvest cut at the cap. */
  lemma {:induction false} SearchYield(apiKey: Configuration.Value, maxResults: Option<int>, delay: real, fetch: Fetch)
    requires Probed(apiKey, fetch)
    ensures var r := SearchRun(apiKey, maxResults, delay, fetch);
      var n := PageCount(fetch, maxResults);
      var h := Harvest(fetch, n);
      && (r.status == Completed || r.status == Capped || r.status.Failed?)
      && IsPrefix(r.items, h)
      && (forall i :: 0 <= i < |r.items| ==> Selected(r.items[i]))
      && (r.status == Completed ==> r.items == h && AllOk(fetch, n))
      && (r.status == Capped <==> HasCap(maxResults) && |r.items| == maxResults.value)
      && (HasCap(maxResults) && maxResults.value > 0 ==> |r.items| <= maxResults.value)
      && (AllOk(fetch, n) && (delay >= 0.0 || n <= 1) ==>
            && r.items == (if CapReached(h, maxResults) then h[..maxResults.value] else h)
            && r.status == (if CapReached(h, maxResults) then Capped else Completed))
  {
    var r := SearchRun(apiKey, maxResults, delay, fetch);
    var n := PageCount(fetch, maxResults);
    var h := Harvest(fetch, n);
    if HasCap(maxResults) && maxResults.value < 0 {
      assert CeilPages(maxResults.value) <= 0;
    }
    WalkSpec(n, n, maxResults, delay, fetch);
    HarvestSelected(fetch, n);
    assert forall i :: 0 <= i < |r.items| ==> r.items[i] == h[i];
  }

  /** Whatever the run's outcome, every item it yields is a selected match. */
  lemma RunItemsSelected(apiKey: Configuration.Value, maxResults: Option<int>, delay: real, fetch: Fetch)
    ensures var r := SearchRun(apiKey, maxResults, delay, fetch);
      forall i :: 0 <= i < |r.items| ==> Selected(r.items[i])
  {
    if Probed(apiKey, fetch) {
      SearchYield(apiKey, maxResults, delay, fetch);
    }
  }

  /** Every harvested match is selected. */
  lemma {:induction false} HarvestSelected(fetch: Fetch, k: int)
    ensures forall i :: 0 <= i < |Harvest(fetch, k)| ==> Selected(Harvest(fetch, k)[i])
    decreases k
  {
    if k > 0 {
      HarvestSelected(fetch, k - 1);
      match fetch(k)
      case Ok(response) =>
        EligibleMembers(MatchesOf(response));
        var e := Eligible(MatchesOf(response));
        assert forall i :: 0 <= i < |e| ==> e[i] in e;
      case Err(_) =>
    }
  }

  /** What a run requests. A completed walk requests page 1, then pages 1..N with a sleep
    * after each page but the last. A walk that stops at page s requests pages 1..s and
    * sleeps after 1..s-1: nothing after the page that hit the cap or failed. */
  lemma SearchTrace(apiKey: Configuration.Value, maxResults: Option<int>, delay: real, fetch: Fetch)
    requires Probed(apiKey, fetch)
    ensures var r := SearchRun(apiKey, maxResults, delay, fetch);
      var n := PageCount(fetch, maxResults);
      && (r.status == Completed ==> r.trace == [Request(1)] + Visits(n, n, delay))
      && (r.status != Completed ==>
            exists s :: 1 <= s <= n && r.trace == [Request(1)] + Visits(s - 1, n, delay) + [Request(s)])
  {
    var n := PageCount(fetch, maxResults);
    if HasCap(maxResults) && maxResults.value < 0 {
      assert CeilPages(maxResults.value) <= 0;
    }
    WalkSpec(n, n, maxResults, delay, fetch);
  }

  /** Page k of the schedule adds one request for k. */
  lemma VisitsStepPages(k: int, n: int, delay: real)
    requires k > 0
    ensures PagesRequested(Visits(k, n, delay)) == PagesRequested(Visits(k - 1, n, delay)) + [k]
  {
    var mid := Visits(k - 1, n, delay) + [Request(k)];
    PickAppend(Visits(k - 1, n, delay), [Request(k)], RequestedPage);
    PickOne(Request(k), RequestedPage);
    if k < n {
      assert Visits(k, n, delay) == mid + [Sleep(delay)];
      PickAppend(mid, [Sleep(delay)], RequestedPage);
      PickOne(Sleep(delay), RequestedPage);
      assert PagesRequested(mid) + [] == PagesRequested(mid);
    } else {
      assert Visits(k, n, delay) == mid;
    }
  }

  /** Page k of the schedule adds a sleep below N and none at N. */
  lemma VisitsStepSleeps(k: int, n: int, delay: real)
    requires k > 0
    ensures Sleeps(Visits(k, n, delay)) == Sleeps(Visits(k - 1, n, delay)) + (if k < n then [delay] else [])
  {
    var before := Visits(k - 1, n, delay);
    var mid := before + [Request(k)];
    PickAppend(before, [Request(k)], SleepLength);
    PickOne(Request(k), SleepLength);
    assert Sleeps(mid) == Sleeps(before) + [];
    assert Sleeps(before) + [] == Sleeps(before);
    if k < n {
      assert Visits(k, n, delay) == mid + [Sleep(delay)];
      PickAppend(mid, [Sleep(delay)], SleepLength);
      PickOne(Sleep(delay), SleepLength);
    } else {
      assert Visits(k, n, delay) == mid;
    }
  }

  /** The schedule requests pages 1..k in increasing order. */
  lemma {:induction false} VisitsPages(k: int, n: int, delay: real)
    requires k >= 0
    ensures PagesRequested(Visits(k, n, delay)) == Range(1, k)
    decreases k
  {
    if k > 0 {
      VisitsPages(k - 1, n, delay);
      VisitsStepPages(k, n, delay);
    }
  }

  /** The schedule of pages 1..k (k <= N) sleeps `delay` after every page below N. */
  lemma {:induction false} VisitsSleeps(k: int, n: int, delay: real)
    requires 0 <= k <= n
    ensures Sleeps(Visits(k, n, delay)) == seq(Max(Min(k, n - 1), 0), _ => delay)
    decreases k
  {
    if k > 0 {
      VisitsSleeps(k - 1, n, delay);
      VisitsStepSleeps(k, n, delay);
      var before := Max(Min(k - 1, n - 1), 0);
      if k < n {
        assert Max(Min(k, n - 1), 0) == before + 1;
        assert seq(before + 1, _ => delay) == seq(before, _ => delay) + [delay];
      } else {
        assert Max(Min(k, n - 1), 0) == before;
        assert seq(before, _ => delay) + [] == seq(before, _ => delay);
      }
    }
  }

  /** A completed walk of N pages makes 1 + N requests, page 1 then pages 1..N, sleeps
    * N - 1 times and ends on its last request. */
  lemma CompletedWalk(apiKey: Configuration.Value, maxResults: Option<int>, delay: real, fetch: Fetch)
    requires Probed(apiKey, fetch)
    requires SearchRun(apiKey, maxResults, delay, fetch).status == Completed
    ensures var r := SearchRun(apiKey, maxResults, delay, fetch);
      var n := PageCount(fetch, maxResults);
      && PagesRequested(r.trace) == [1] + Range(1, n)
      && Sleeps(r.trace) == seq(Max(n - 1, 0), _ => delay)
      && r.trace[|r.trace| - 1] == Request(Max(n, 1))
  {
    var r := SearchRun(apiKey, maxResults, delay, fetch);
    var n := PageCount(fetch, maxResults);
    SearchTrace(apiKey, maxResults, delay, fetch);
    var m := Max(n, 0);
    assert Visits(n, n, delay) == Visits(m, m, delay);
    VisitsPages(m, m, delay);
    VisitsSleeps(m, m, delay);
    PickAppend([Request(1)], Visits(m, m, delay), RequestedPage);
    PickAppend([Request(1)], Visits(m, m, delay), SleepLength);
    assert Pick([Request(1)], RequestedPage) == [1];
    assert Pick([Request(1)], SleepLength) == [];
  }
}
