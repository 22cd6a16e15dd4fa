/** The original command-line script sipg.py: the probe of page 1, the numbered listing of
  * IPv4 addresses over pages 1..total//100+1 with a growing pause after every thousandth
  * address, and the optional output file written by a second pass over the same pages.
  *
  * The script never imports `time`, so its first pause raises NameError. `TimeModule`
  * says which of the two programs is meant: `NotImported` is the script as written,
  * `Imported` the one its authors intended. */
module LegacyScript {
  import opened Wrappers
  import opened Basics
  import Address
  import Paging
  import Results

  /** One element of `matches`; `ipStr` is None when the key is missing. */
  datatype Entry = Entry(ipStr: Option<string>)

  /** A response body: not JSON at all, or an object whose `total` and `matches` may be
    * missing. */
  datatype Body = NotJson | Json(total: Option<int>, matches: Option<seq<Entry>>)

  /** What `requests.get` gives for one page: an exception, or a status and a body. */
  datatype Reply = ConnectionError | Reply(status: int, body: Body)

  /** The server, asked for one page of the query. */
  type Get = int -> Reply

  /** What `ipaddress.ip_address` makes of a string. Recognising IPv6 text is left to the
    * parameter `isIPv6`. */
  datatype Kind = V4 | V6 | Malformed

  function KindOf(ip: string, isIPv6: string -> bool): Kind {
    if Address.IsIPv4(ip) then V4 else if isIPv6(ip) then V6 else Malformed
  }

  /** An entry on which the per-entry code raises: no `ip_str`, or one that is no address. */
  predicate Bad(e: Entry, isIPv6: string -> bool) {
    e.ipStr.None? || KindOf(e.ipStr.value, isIPv6) == Malformed
  }

  const DelayInterval := 5
  const ResultsPerDelay := 1000

  /** `introduce_delay`: the seconds to pause after the ip_count-th address, if any. The
    * pause comes after every `results_per_delay`-th address and grows linearly: it is
    * `delay_interval` seconds per `results_per_delay` addresses listed so far. */
  function DelaySeconds(ipCount: int, delayInterval: int, resultsPerDelay: int): (d: Option<int>)
    requires resultsPerDelay > 0
    ensures d.Some? <==> ipCount > 0 && ipCount % resultsPerDelay == 0
    ensures d.Some? ==> d.value * resultsPerDelay == delayInterval * ipCount
  {
    if ipCount % resultsPerDelay == 0 && ipCount > 0 then
      var k := ipCount / resultsPerDelay;
      assert ipCount == k * resultsPerDelay;
      assert delayInterval * k * resultsPerDelay == delayInterval * (k * resultsPerDelay);
      Some(delayInterval * k)
    else None
  }

  /** With the script's defaults: 5 s after address 1000, 10 s after 2000, and so on. */
  lemma DefaultDelays(k: nat)
    ensures DelaySeconds(ResultsPerDelay * k, DelayInterval, ResultsPerDelay) ==
      if k == 0 then None else Some(DelayInterval * k)
    ensures DelaySeconds(999, DelayInterval, ResultsPerDelay) == None
    ensures DelaySeconds(1001, DelayInterval, ResultsPerDelay) == None
  {
  }

  /** The script's pages: `range(1, total // 100 + 2)`, that is pages 1..total//100+1. */
  function LegacyPageCount(total: int): int {
    total / 100 + 1
  }

  /** Against the page count of sipg/core.py the script asks for one page more exactly when
    * the total is a multiple of 100 (page 1 alone when the total is 0). */
  lemma LegacyPagesVsCore(total: int)
    requires total >= 0
    ensures LegacyPageCount(total) == Paging.CeilPages(total) + (if total % 100 == 0 then 1 else 0)
  {
  }

  /** What the script does that the model keeps: the requests it sends, the numbered
    * lines it prints, the status and error messages it prints, and its pauses. */
  datatype Event = Requested(page: int) | Listed(index: int, ip: string) | StatusShown(code: int)
    | ErrorShown | Slept(seconds: int)

  /** `ip_count` and what happened so far. */
  datatype Listing = Listing(count: nat, trace: seq<Event>)

  /** The state within one page: the listing, and whether an exception ended the page. */
  datatype PageScan = PageScan(listing: Listing, aborted: bool)

  datatype TimeModule = NotImported | Imported

  function Emit(l: Listing, x: Event): Listing {
    Listing(l.count, l.trace + [x])
  }

  function RequestedPage(x: Event): Option<int> { if x.Requested? then Some(x.page) else None }
  function ListedIndex(x: Event): Option<int> { if x.Listed? then Some(x.index) else None }
  function ListedIp(x: Event): Option<string> { if x.Listed? then Some(x.ip) else None }
  function SleptFor(x: Event): Option<int> { if x.Slept? then Some(x.seconds) else None }

  function Pages(t: seq<Event>): seq<int> { Pick(t, RequestedPage) }
  function Indices(t: seq<Event>): seq<int> { Pick(t, ListedIndex) }
  function Shown(t: seq<Event>): seq<string> { Pick(t, ListedIp) }
  function Sleeps(t: seq<Event>): seq<int> { Pick(t, SleptFor) }

  /** One address of a page (lines 137-141). An entry without `ip_str`, or whose text is
    * no address, raises and ends the page; an IPv6 address is passed over; an IPv4
    * address is counted and printed, then the pause is due. */
  function ListEntry(l: Listing, e: Entry, time: TimeModule, isIPv6: string -> bool): PageScan {
    match e.ipStr
    case None => PageScan(Emit(l, ErrorShown), true)
    case Some(ip) =>
      match KindOf(ip, isIPv6)
      case Malformed => PageScan(Emit(l, ErrorShown), true)
      case V6 => PageScan(l, false)
      case V4 =>
        var listed := Listing(l.count + 1, l.trace + [Listed(l.count + 1, ip)]);
        match DelaySeconds(listed.count, DelayInterval, ResultsPerDelay)
        case None => PageScan(listed, false)
        case Some(d) =>
          if time == Imported then PageScan(Emit(listed, Slept(d)), false)
          else PageScan(Emit(listed, ErrorShown), true)
  }

  /** The entries of one page, up to the first one that raises. */
  function ScanEntries(s: PageScan, es: seq<Entry>, time: TimeModule, isIPv6: string -> bool): PageScan
    decreases |es|
  {
    if es == [] then s
    else
      var p := ScanEntries(s, es[..|es| - 1], time, isIPv6);
      if p.aborted then p else ListEntry(p.listing, es[|es| - 1], time, isIPv6)
  }

  /** One page of the listing loop (lines 131-145). Any exception is reported and the loop
    * goes on with the next page. */
  function ListPage(l: Listing, page: int, reply: Reply, time: TimeModule, isIPv6: string -> bool): Listing {
    var start := Emit(l, Requested(page));
    match reply
    case ConnectionError => Emit(start, ErrorShown)
    case Reply(status, body) =>
      if status != 200 then Emit(start, StatusShown(status))
      else
        match body
        case NotJson => Emit(start, ErrorShown)
        case Json(_, matches) =>
          if matches.None? then Emit(start, ErrorShown)
          else ScanEntries(PageScan(start, false), matches.value, time, isIPv6).listing
  }

  function ListPages(k: int, get: Get, time: TimeModule, isIPv6: string -> bool): Listing
    decreases k
  {
    if k <= 0 then Listing(0, []) else ListPage(ListPages(k - 1, get, time, isIPv6), k, get(k), time, isIPv6)
  }

  /** The listing loop (lines 129-145) for a probed total. */
  function ScriptListing(total: int, get: Get, time: TimeModule, isIPv6: string -> bool): Listing {
    ListPages(LegacyPageCount(total), get, time, isIPv6)
  }

  lemma {:induction false} ScanEntriesStays(s: PageScan, es: seq<Entry>, j: nat, time: TimeModule, isIPv6: string -> bool)
    requires j <= |es|
    requires ScanEntries(s, es[..j], time, isIPv6).aborted
    ensures ScanEntries(s, es, time, isIPv6) == ScanEntries(s, es[..j], time, isIPv6)
    decreases |es| - j
  {
    if j < |es| {
      var init := es[..|es| - 1];
      assert init[..j] == es[..j];
      ScanEntriesStays(s, init, j, time, isIPv6);
    } else {
      assert es[..j] == es;
    }
  }

  /** The inner loop over one page's matches (lines 137-141), left at the first entry that
    * raises. Proved to be `ScanEntries` with `time` imported. */
  method ListEntries(start: Listing, es: seq<Entry>, isIPv6: string -> bool) returns (l: Listing, aborted: bool)
    ensures PageScan(l, aborted) == ScanEntries(PageScan(start, false), es, Imported, isIPv6)
  {
    var ipCount := start.count;
    var trace := start.trace;
    var j := 0;
    aborted := false;
    while j < |es| && !aborted
      invariant 0 <= j <= |es|
      invariant ScanEntries(PageScan(start, false), es[..j], Imported, isIPv6) == PageScan(Listing(ipCount, trace), aborted)
    {
      assert es[..j + 1][..j] == es[..j];
      var e := es[j];
      if e.ipStr.None? {
        trace := trace + [ErrorShown];
        aborted := true;
      } else {
        var ip := e.ipStr.value;
        var kind := KindOf(ip, isIPv6);
        if kind == Malformed {
          trace := trace + [ErrorShown];
          aborted := true;
        } else if kind == V4 {
          ipCount := ipCount + 1;
          trace := trace + [Listed(ipCount, ip)];
          var pause := DelaySeconds(ipCount, DelayInterval, ResultsPerDelay);
          if pause.Some? {
            trace := trace + [Slept(pause.value)];
          }
        }
      }
      j := j + 1;
    }
    if aborted {
      ScanEntriesStays(PageScan(start, false), es, j, Imported, isIPv6);
    } else {
      assert es[..j] == es;
    }
    l := Listing(ipCount, trace);
  }

  /** The listing loop (lines 129-145) as the script runs it, `ip_count` and the events
    * held in local variables. Proved to be the intended listing. */
  method ListIps(total: int, get: Get, isIPv6: string -> bool) returns (l: Listing)
    ensures l == ScriptListing(total, get, Imported, isIPv6)
  {
    var pages := LegacyPageCount(total);
    l := Listing(0, []);
    var page := 1;
    while page <= pages
      invariant 1 <= page <= Max(pages, 0) + 1
      invariant l == ListPages(page - 1, get, Imported, isIPv6)
    {
      var before := l;
      var reply := get(page);
      var start := Emit(l, Requested(page));
      match reply {
        case ConnectionError =>
          l := Emit(start, ErrorShown);
        case Reply(status, body) =>
          if status != 200 {
            l := Emit(start, StatusShown(status));
          } else if body.NotJson? || body.matches.None? {
            l := Emit(start, ErrorShown);
          } else {
            var aborted;
            l, aborted := ListEntries(start, body.matches.value, isIPv6);
          }
      }
      assert l == ListPage(before, page, reply, Imported, isIPv6);
      page := page + 1;
    }
  }

  /** The position of the first entry that raises, or |es| when none does. */
  function FirstBad(es: seq<Entry>, isIPv6: string -> bool): (i: nat)
    ensures i <= |es|
    decreases |es|
  {
    if es == [] then 0
    else
      var i := FirstBad(es[..|es| - 1], isIPv6);
      if i < |es| - 1 then i else if Bad(es[|es| - 1], isIPv6) then |es| - 1 else |es|
  }

  /** `FirstBad` is what its name says: no entry before it raises, and the entry there does. */
  lemma {:induction false} FirstBadIsFirst(es: seq<Entry>, isIPv6: string -> bool)
    ensures var i := FirstBad(es, isIPv6);
      && (forall j :: 0 <= j < i ==> !Bad(es[j], isIPv6))
      && (i < |es| ==> Bad(es[i], isIPv6))
    decreases |es|
  {
    if es != [] {
      var init := es[..|es| - 1];
      FirstBadIsFirst(init, isIPv6);
      var i := FirstBad(init, isIPv6);
      assert forall j :: 0 <= j < i ==> es[j] == init[j];
    }
  }

  /** The IPv4 address of an entry, if it has one. */
  function V4Of(e: Entry, isIPv6: string -> bool): seq<string> {
    if e.ipStr.Some? && KindOf(e.ipStr.value, isIPv6) == V4 then [e.ipStr.value] else []
  }

  /** The IPv4 addresses among some entries, in order. */
  function V4s(es: seq<Entry>, isIPv6: string -> bool): seq<string>
    decreases |es|
  {
    if es == [] then [] else V4s(es[..|es| - 1], isIPv6) + V4Of(es[|es| - 1], isIPv6)
  }

  /** What one page should contribute to the listing: for a 200 reply with a list of
    * matches, the IPv4 addresses before the first entry that raises; nothing otherwise. */
  function PageIps(reply: Reply, isIPv6: string -> bool): seq<string> {
    match reply
    case Reply(status, Json(_, Some(es))) =>
      if status == 200 then V4s(es[..FirstBad(es, isIPv6)], isIPv6) else []
    case _ => []
  }

  /** The addresses pages 1..k should contribute, page after page. */
  function ListedHarvest(get: Get, k: int, isIPv6: string -> bool): seq<string>
    decreases k
  {
    if k <= 0 then [] else ListedHarvest(get, k - 1, isIPv6) + PageIps(get(k), isIPv6)
  }

  /** The pauses due once `count` addresses are listed: 5 s, 10 s, 15 s, ... */
  function SleepSchedule(count: nat): seq<int> {
    seq(count / ResultsPerDelay, k => DelayInterval * (k + 1))
  }

  /** The numbering and the pauses agree with `ip_count`. */
  predicate Tallied(l: Listing, time: TimeModule) {
    && Indices(l.trace) == Range(1, l.count)
    && |Shown(l.trace)| == l.count
    && Sleeps(l.trace) == (if time == Imported then SleepSchedule(l.count) else [])
  }

  /** Where the pauses fall: each one comes right after the line of an address whose number
    * is a multiple of 1000, and lasts 5 s per thousand listed; and every such line is
    * followed by its pause. */
  predicate PausesPlaced(t: seq<Event>) {
    && (forall i :: 0 <= i < |t| && t[i].Listed? ==> t[i].index > 0)
    && (forall i :: 0 <= i < |t| && t[i].Slept? ==>
          && i > 0 && t[i - 1].Listed? && t[i - 1].index % ResultsPerDelay == 0
          && t[i].seconds == DelayInterval * (t[i - 1].index / ResultsPerDelay))
    && (forall i :: 0 <= i < |t| && t[i].Listed? && t[i].index % ResultsPerDelay == 0 ==>
          i + 1 < |t| && t[i + 1] == Slept(DelayInterval * (t[i].index / ResultsPerDelay)))
  }

  /** An event that is no pause and no thousandth line keeps the pauses in place. */
  lemma PlacedAppend(t: seq<Event>, x: Event)
    requires PausesPlaced(t) && !x.Slept?
    requires x.Listed? ==> x.index > 0 && x.index % ResultsPerDelay != 0
    ensures PausesPlaced(t + [x])
  {
    var u := t + [x];
    forall i | 0 <= i < |u| && u[i].Slept?
      ensures i > 0 && u[i - 1].Listed? && u[i - 1].index % ResultsPerDelay == 0
      ensures u[i].seconds == DelayInterval * (u[i - 1].index / ResultsPerDelay)
    {
      assert i < |t| && u[i] == t[i] && u[i - 1] == t[i - 1];
    }
  }

  /** A thousandth line followed by its pause keeps the pauses in place. */
  lemma PlacedPause(t: seq<Event>, c: int, ip: string)
    requires PausesPlaced(t) && c > 0 && c % ResultsPerDelay == 0
    ensures PausesPlaced(t + [Listed(c, ip)] + [Slept(DelayInterval * (c / ResultsPerDelay))])
  {
    var u := t + [Listed(c, ip)] + [Slept(DelayInterval * (c / ResultsPerDelay))];
    assert u[|t|] == Listed(c, ip);
    forall i | 0 <= i < |u| && u[i].Slept?
      ensures i > 0 && u[i - 1].Listed? && u[i - 1].index % ResultsPerDelay == 0
      ensures u[i].seconds == DelayInterval * (u[i - 1].index / ResultsPerDelay)
    {
      if i < |t| {
        assert u[i] == t[i] && u[i - 1] == t[i - 1];
      }
    }
    forall i | 0 <= i < |u| && u[i].Listed? && u[i].index % ResultsPerDelay == 0
      ensures i + 1 < |u| && u[i + 1] == Slept(DelayInterval * (u[i].index / ResultsPerDelay))
    {
      if i < |t| {
        assert u[i] == t[i] && u[i + 1] == t[i + 1];
      }
    }
  }

  lemma AppendEvent(t: seq<Event>, x: Event)
    ensures Pages(t + [x]) == Pages(t) + (if x.Requested? then [x.page] else [])
    ensures Indices(t + [x]) == Indices(t) + (if x.Listed? then [x.index] else [])
    ensures Shown(t + [x]) == Shown(t) + (if x.Listed? then [x.ip] else [])
    ensures Sleeps(t + [x]) == Sleeps(t) + (if x.Slept? then [x.seconds] else [])
  {
    assert (t + [x])[..|t|] == t;
  }

  /** Listing the c-th address adds a pause to the schedule exactly when c is a multiple
    * of 1000, and then the pause `introduce_delay` takes. */
  lemma SleepStep(c: int)
    requires c > 0
    ensures DelaySeconds(c, DelayInterval, ResultsPerDelay).None? ==> SleepSchedule(c) == SleepSchedule(c - 1)
    ensures DelaySeconds(c, DelayInterval, ResultsPerDelay).Some? ==>
      SleepSchedule(c) == SleepSchedule(c - 1) + [DelaySeconds(c, DelayInterval, ResultsPerDelay).value]
  {
    var n := (c - 1) / ResultsPerDelay;
    if c % ResultsPerDelay == 0 {
      assert c / ResultsPerDelay == n + 1;
      assert DelaySeconds(c, DelayInterval, ResultsPerDelay).value == DelayInterval * (n + 1);
    } else {
      assert c / ResultsPerDelay == n;
    }
  }

  /** Listing an IPv4 address keeps the tally. */
  lemma ListV4Facts(l: Listing, ip: string, time: TimeModule)
    requires Tallied(l, time)
    ensures var c := l.count + 1;
      var listed := Listing(c, l.trace + [Listed(c, ip)]);
      && Indices(listed.trace) == Range(1, c)
      && |Shown(listed.trace)| == c
      && Shown(listed.trace) == Shown(l.trace) + [ip]
      && Sleeps(listed.trace) == Sleeps(l.trace)
      && Pages(listed.trace) == Pages(l.trace)
  {
    var c := l.count + 1;
    AppendEvent(l.trace, Listed(c, ip));
    assert Range(1, c) == Range(1, c - 1) + [c];
  }

  /** With `time` imported, one entry ends the page exactly when it raises. */
  lemma ListEntryAborts(l: Listing, e: Entry, isIPv6: string -> bool)
    ensures ListEntry(l, e, Imported, isIPv6).aborted <==> Bad(e, isIPv6)
  {
    if !Bad(e, isIPv6) && KindOf(e.ipStr.value, isIPv6) == V4 {
      var c := l.count + 1;
      if DelaySeconds(c, DelayInterval, ResultsPerDelay).Some? {
        assert !ListEntry(l, e, Imported, isIPv6).aborted;
      }
    }
  }

  /** An event that is no request leaves the requested pages alone. */
  lemma EmitKeepsPages(l: Listing, x: Event)
    requires !x.Requested?
    ensures Pages(Emit(l, x).trace) == Pages(l.trace)
  {
    AppendEvent(l.trace, x);
    assert Pages(l.trace) + [] == Pages(l.trace);
  }

  /** One entry requests nothing. */
  lemma ListEntryPages(l: Listing, e: Entry, time: TimeModule, isIPv6: string -> bool)
    ensures Pages(ListEntry(l, e, time, isIPv6).listing.trace) == Pages(l.trace)
  {
    var s := ListEntry(l, e, time, isIPv6);
    if Bad(e, isIPv6) {
      assert s.listing == Emit(l, ErrorShown);
      EmitKeepsPages(l, ErrorShown);
    } else if KindOf(e.ipStr.value, isIPv6) == V4 {
      var ip := e.ipStr.value;
      var c := l.count + 1;
      var listed := Listing(c, l.trace + [Listed(c, ip)]);
      assert listed == Emit(Listing(c, l.trace), Listed(c, ip));
      EmitKeepsPages(Listing(c, l.trace), Listed(c, ip));
      var pause := DelaySeconds(c, DelayInterval, ResultsPerDelay);
      if pause.Some? {
        var x := if time == Imported then Slept(pause.value) else ErrorShown;
        assert s.listing == Emit(listed, x);
        EmitKeepsPages(listed, x);
      } else {
        assert s.listing == listed;
      }
    } else {
      assert s.listing == l;
    }
  }

  /** An IPv4 entry adds its address to what is shown, whatever pause follows. */
  lemma ListV4Shows(l: Listing, ip: string, time: TimeModule, isIPv6: string -> bool)
    requires KindOf(ip, isIPv6) == V4
    ensures Shown(ListEntry(l, Entry(Some(ip)), time, isIPv6).listing.trace) == Shown(l.trace) + [ip]
  {
    var c := l.count + 1;
    var listed := Listing(c, l.trace + [Listed(c, ip)]);
    AppendEvent(l.trace, Listed(c, ip));
    var s := ListEntry(l, Entry(Some(ip)), time, isIPv6);
    var pause := DelaySeconds(c, DelayInterval, ResultsPerDelay);
    if pause.Some? {
      var x := if time == Imported then Slept(pause.value) else ErrorShown;
      assert s.listing == Emit(listed, x);
      AppendEvent(listed.trace, x);
    } else {
      assert s.listing == listed;
    }
  }

  /** One entry adds its IPv4 address to what is shown. */
  lemma ListEntryShows(l: Listing, e: Entry, time: TimeModule, isIPv6: string -> bool)
    ensures Shown(ListEntry(l, e, time, isIPv6).listing.trace) == Shown(l.trace) + V4Of(e, isIPv6)
  {
    var s := ListEntry(l, e, time, isIPv6);
    var shown := Shown(l.trace);
    if Bad(e, isIPv6) {
      assert s == PageScan(Emit(l, ErrorShown), true);
      AppendEvent(l.trace, ErrorShown);
      assert V4Of(e, isIPv6) == [] && shown + [] == shown;
    } else if KindOf(e.ipStr.value, isIPv6) == V6 {
      assert s == PageScan(l, false);
      assert V4Of(e, isIPv6) == [] && shown + [] == shown;
    } else {
      assert e == Entry(Some(e.ipStr.value)) && V4Of(e, isIPv6) == [e.ipStr.value];
      ListV4Shows(l, e.ipStr.value, time, isIPv6);
    }
  }

  /** One entry keeps the tally. */
  lemma ListEntryTally(l: Listing, e: Entry, time: TimeModule, isIPv6: string -> bool)
    requires Tallied(l, time)
    ensures Tallied(ListEntry(l, e, time, isIPv6).listing, time)
  {
    var s := ListEntry(l, e, time, isIPv6);
    if Bad(e, isIPv6) {
      assert s == PageScan(Emit(l, ErrorShown), true);
      AppendEvent(l.trace, ErrorShown);
    } else if KindOf(e.ipStr.value, isIPv6) == V6 {
      assert s == PageScan(l, false);
    } else {
      var ip := e.ipStr.value;
      var c := l.count + 1;
      var listed := Listing(c, l.trace + [Listed(c, ip)]);
      ListV4Facts(l, ip, time);
      SleepStep(c);
      var pause := DelaySeconds(c, DelayInterval, ResultsPerDelay);
      if pause.None? {
        assert s == PageScan(listed, false);
      } else if time == Imported {
        assert s == PageScan(Emit(listed, Slept(pause.value)), false);
        AppendEvent(listed.trace, Slept(pause.value));
      } else {
        assert s == PageScan(Emit(listed, ErrorShown), true);
        AppendEvent(listed.trace, ErrorShown);
      }
    }
  }

  /** The entries of a page keep the tally. */
  lemma {:induction false} ScanEntriesTally(l: Listing, es: seq<Entry>, time: TimeModule, isIPv6: string -> bool)
    requires Tallied(l, time)
    ensures Tallied(ScanEntries(PageScan(l, false), es, time, isIPv6).listing, time)
    decreases |es|
  {
    if es != [] {
      var init, last := es[..|es| - 1], es[|es| - 1];
      ScanEntriesTally(l, init, time, isIPv6);
      var p := ScanEntries(PageScan(l, false), init, time, isIPv6);
      if !p.aborted {
        ListEntryTally(p.listing, last, time, isIPv6);
      }
    }
  }

  /** The entries of a page request nothing. */
  lemma {:induction false} ScanEntriesPages(l: Listing, es: seq<Entry>, time: TimeModule, isIPv6: string -> bool)
    ensures Pages(ScanEntries(PageScan(l, false), es, time, isIPv6).listing.trace) == Pages(l.trace)
    decreases |es|
  {
    if es != [] {
      var init, last := es[..|es| - 1], es[|es| - 1];
      ScanEntriesPages(l, init, time, isIPv6);
      var p := ScanEntries(PageScan(l, false), init, time, isIPv6);
      if !p.aborted {
        ListEntryPages(p.listing, last, time, isIPv6);
      }
    }
  }

  /** With `time` imported, a page shows the IPv4 addresses before its first entry that
    * raises, and is cut short exactly when it has one. */
  lemma {:induction false} ScanEntriesAborts(l: Listing, es: seq<Entry>, isIPv6: string -> bool)
    ensures ScanEntries(PageScan(l, false), es, Imported, isIPv6).aborted <==> FirstBad(es, isIPv6) < |es|
    decreases |es|
  {
    if es != [] {
      var init, last := es[..|es| - 1], es[|es| - 1];
      ScanEntriesAborts(l, init, isIPv6);
      var p := ScanEntries(PageScan(l, false), init, Imported, isIPv6);
      if !p.aborted {
        ListEntryAborts(p.listing, last, isIPv6);
      }
    }
  }

  /** The step of `ScanEntriesShows` past a clean prefix. */
  lemma ShowsAfterCleanPrefix(l: Listing, es: seq<Entry>, isIPv6: string -> bool)
    requires es != []
    requires var init := es[..|es| - 1];
      var p := ScanEntries(PageScan(l, false), init, Imported, isIPv6);
      && !p.aborted && FirstBad(init, isIPv6) == |init|
      && Shown(p.listing.trace) == Shown(l.trace) + V4s(init, isIPv6)
    ensures Shown(ScanEntries(PageScan(l, false), es, Imported, isIPv6).listing.trace) ==
      Shown(l.trace) + V4s(es[..FirstBad(es, isIPv6)], isIPv6)
  {
    var init, last := es[..|es| - 1], es[|es| - 1];
    var p := ScanEntries(PageScan(l, false), init, Imported, isIPv6);
    var s := ListEntry(p.listing, last, Imported, isIPv6);
    assert ScanEntries(PageScan(l, false), es, Imported, isIPv6) == s;
    ListEntryShows(p.listing, last, Imported, isIPv6);
    var shown := Shown(l.trace) + V4s(init, isIPv6);
    assert Shown(s.listing.trace) == shown + V4Of(last, isIPv6);
    if Bad(last, isIPv6) {
      assert FirstBad(es, isIPv6) == |init|;
      assert es[..|init|] == init;
      assert V4Of(last, isIPv6) == [] && shown + [] == shown;
    } else {
      assert FirstBad(es, isIPv6) == |es|;
      assert es[..|es|] == es;
      assert V4s(es, isIPv6) == V4s(init, isIPv6) + V4Of(last, isIPv6);
      assert shown + V4Of(last, isIPv6) == Shown(l.trace) + V4s(es, isIPv6);
    }
  }

  lemma {:induction false} ScanEntriesShows(l: Listing, es: seq<Entry>, isIPv6: string -> bool)
    ensures var s := ScanEntries(PageScan(l, false), es, Imported, isIPv6);
      && (s.aborted <==> FirstBad(es, isIPv6) < |es|)
      && Shown(s.listing.trace) == Shown(l.trace) + V4s(es[..FirstBad(es, isIPv6)], isIPv6)
    decreases |es|
  {
    ScanEntriesAborts(l, es, isIPv6);
    if es == [] {
      assert es[..0] == [];
    } else {
      var init := es[..|es| - 1];
      ScanEntriesShows(l, init, isIPv6);
      var i := FirstBad(init, isIPv6);
      if i < |init| {
        assert es[..i] == init[..i];
      } else {
        assert init[..i] == init;
        ShowsAfterCleanPrefix(l, es, isIPv6);
      }
    }
  }

  /** An event that lists nothing and does not sleep keeps the tally. */
  lemma EmitKeepsTally(l: Listing, x: Event, time: TimeModule)
    requires Tallied(l, time) && !x.Listed? && !x.Slept?
    ensures Tallied(Emit(l, x), time)
  {
    AppendEvent(l.trace, x);
    assert Indices(l.trace) + [] == Indices(l.trace);
    assert Sleeps(l.trace) + [] == Sleeps(l.trace);
  }

  /** One page keeps the tally. */
  lemma ListPageTally(l: Listing, page: int, reply: Reply, time: TimeModule, isIPv6: string -> bool)
    requires Tallied(l, time)
    ensures Tallied(ListPage(l, page, reply, time, isIPv6), time)
  {
    var start := Emit(l, Requested(page));
    var n := ListPage(l, page, reply, time, isIPv6);
    EmitKeepsTally(l, Requested(page), time);
    match reply
    case ConnectionError =>
      assert n == Emit(start, ErrorShown);
      EmitKeepsTally(start, ErrorShown, time);
    case Reply(status, body) =>
      if status != 200 {
        assert n == Emit(start, StatusShown(status));
        EmitKeepsTally(start, StatusShown(status), time);
      } else if body.NotJson? || body.matches.None? {
        assert n == Emit(start, ErrorShown);
        EmitKeepsTally(start, ErrorShown, time);
      } else {
        assert n == ScanEntries(PageScan(start, false), body.matches.value, time, isIPv6).listing;
        ScanEntriesTally(start, body.matches.value, time, isIPv6);
      }
  }

  /** One page is requested whatever happens. */
  lemma ListPagePages(l: Listing, page: int, reply: Reply, time: TimeModule, isIPv6: string -> bool)
    ensures Pages(ListPage(l, page, reply, time, isIPv6).trace) == Pages(l.trace) + [page]
  {
    var start := Emit(l, Requested(page));
    var n := ListPage(l, page, reply, time, isIPv6);
    AppendEvent(l.trace, Requested(page));
    if reply.Reply? && reply.status == 200 && reply.body.Json? && reply.body.matches.Some? {
      ScanEntriesPages(start, reply.body.matches.value, time, isIPv6);
    } else {
      AppendEvent(start.trace, n.trace[|n.trace| - 1]);
      assert n.trace == start.trace + [n.trace[|n.trace| - 1]];
    }
  }

  /** With `time` imported, one page shows exactly what `PageIps` says. */
  lemma ListPageShows(l: Listing, page: int, reply: Reply, isIPv6: string -> bool)
    ensures Shown(ListPage(l, page, reply, Imported, isIPv6).trace) == Shown(l.trace) + PageIps(reply, isIPv6)
  {
    var start := Emit(l, Requested(page));
    var n := ListPage(l, page, reply, Imported, isIPv6);
    AppendEvent(l.trace, Requested(page));
    assert Shown(start.trace) == Shown(l.trace);
    match reply
    case ConnectionError =>
      assert n == Emit(start, ErrorShown);
      AppendEvent(start.trace, ErrorShown);
    case Reply(status, body) =>
      if status != 200 {
        assert n == Emit(start, StatusShown(status)) && PageIps(reply, isIPv6) == [];
        AppendEvent(start.trace, StatusShown(status));
      } else if body.NotJson? || body.matches.None? {
        assert n == Emit(start, ErrorShown) && PageIps(reply, isIPv6) == [];
        AppendEvent(start.trace, ErrorShown);
      } else {
        var es := body.matches.value;
        var found := V4s(es[..FirstBad(es, isIPv6)], isIPv6);
        assert n == ScanEntries(PageScan(start, false), es, Imported, isIPv6).listing;
        assert PageIps(reply, isIPv6) == found;
        ScanEntriesShows(start, es, isIPv6);
        assert Shown(n.trace) == Shown(start.trace) + found;
      }
  }

  lemma {:induction false} ListPagesTally(k: int, get: Get, time: TimeModule, isIPv6: string -> bool)
    ensures Tallied(ListPages(k, get, time, isIPv6), time)
    decreases k
  {
    if k > 0 {
      ListPagesTally(k - 1, get, time, isIPv6);
      ListPageTally(ListPages(k - 1, get, time, isIPv6), k, get(k), time, isIPv6);
    } else {
      assert SleepSchedule(0) == [];
    }
  }

  lemma {:induction false} ListPagesShows(k: int, get: Get, time: TimeModule, isIPv6: string -> bool)
    requires k >= 0
    ensures var l := ListPages(k, get, time, isIPv6);
      && Pages(l.trace) == Range(1, k)
      && (time == Imported ==> Shown(l.trace) == ListedHarvest(get, k, isIPv6))
    decreases k
  {
    if k > 0 {
      ListPagesShows(k - 1, get, time, isIPv6);
      ListPagePages(ListPages(k - 1, get, time, isIPv6), k, get(k), time, isIPv6);
      if time == Imported {
        ListPageShows(ListPages(k - 1, get, time, isIPv6), k, get(k), isIPv6);
      }
    }
  }

  /** With `time` imported, one entry keeps the pauses in place. */
  lemma ListEntryPlaced(l: Listing, e: Entry, isIPv6: string -> bool)
    requires PausesPlaced(l.trace)
    ensures PausesPlaced(ListEntry(l, e, Imported, isIPv6).listing.trace)
  {
    var s := ListEntry(l, e, Imported, isIPv6);
    if Bad(e, isIPv6) {
      assert s.listing.trace == l.trace + [ErrorShown];
      PlacedAppend(l.trace, ErrorShown);
    } else if KindOf(e.ipStr.value, isIPv6) == V4 {
      var ip := e.ipStr.value;
      var c := l.count + 1;
      var pause := DelaySeconds(c, DelayInterval, ResultsPerDelay);
      if pause.Some? {
        assert pause.value == DelayInterval * (c / ResultsPerDelay);
        assert s.listing.trace == l.trace + [Listed(c, ip)] + [Slept(pause.value)];
        PlacedPause(l.trace, c, ip);
      } else {
        assert s.listing.trace == l.trace + [Listed(c, ip)];
        PlacedAppend(l.trace, Listed(c, ip));
      }
    } else {
      assert s.listing == l;
    }
  }

  lemma {:induction false} ScanEntriesPlaced(l: Listing, es: seq<Entry>, isIPv6: string -> bool)
    requires PausesPlaced(l.trace)
    ensures PausesPlaced(ScanEntries(PageScan(l, false), es, Imported, isIPv6).listing.trace)
    decreases |es|
  {
    if es != [] {
      var init, last := es[..|es| - 1], es[|es| - 1];
      ScanEntriesPlaced(l, init, isIPv6);
      var p := ScanEntries(PageScan(l, false), init, Imported, isIPv6);
      if !p.aborted {
        ListEntryPlaced(p.listing, last, isIPv6);
      }
    }
  }

  /** With `time` imported, one page keeps the pauses in place. */
  lemma ListPagePlaced(l: Listing, page: int, reply: Reply, isIPv6: string -> bool)
    requires PausesPlaced(l.trace)
    ensures PausesPlaced(ListPage(l, page, reply, Imported, isIPv6).trace)
  {
    var start := Emit(l, Requested(page));
    PlacedAppend(l.trace, Requested(page));
    var n := ListPage(l, page, reply, Imported, isIPv6);
    if reply.Reply? && reply.status == 200 && reply.body.Json? && reply.body.matches.Some? {
      ScanEntriesPlaced(start, reply.body.matches.value, isIPv6);
    } else {
      var x := n.trace[|n.trace| - 1];
      assert n.trace == start.trace + [x] && !x.Slept? && !x.Listed?;
      PlacedAppend(start.trace, x);
    }
  }

  lemma {:induction false} ListPagesPlaced(k: int, get: Get, isIPv6: string -> bool)
    ensures PausesPlaced(ListPages(k, get, Imported, isIPv6).trace)
    decreases k
  {
    if k > 0 {
      ListPagesPlaced(k - 1, get, isIPv6);
      ListPagePlaced(ListPages(k - 1, get, Imported, isIPv6), k, get(k), isIPv6);
    }
  }

  /** The intended listing. Every page 1..total//100+1 is requested once, in order, even
    * after errors; the addresses shown are those `PageIps` gives, page after page; they
    * are numbered 1, 2, ... without gap; and a pause of 5 s, 10 s, 15 s, ... follows each
    * thousandth address right after its line. */
  lemma ListingSpec(total: int, get: Get, isIPv6: string -> bool)
    ensures var l := ScriptListing(total, get, Imported, isIPv6);
      var pages := LegacyPageCount(total);
      && Pages(l.trace) == Range(1, pages)
      && Shown(l.trace) == ListedHarvest(get, pages, isIPv6)
      && l.count == |ListedHarvest(get, pages, isIPv6)|
      && Indices(l.trace) == Range(1, l.count)
      && Sleeps(l.trace) == SleepSchedule(l.count)
      && PausesPlaced(l.trace)
  {
    var pages := LegacyPageCount(total);
    ListPagesTally(pages, get, Imported, isIPv6);
    ListPagesPlaced(pages, get, isIPv6);
    ListPagesShows(Max(pages, 0), get, Imported, isIPv6);
  }

  /** The script as written still requests every page and numbers its lines without gap,
    * but never pauses. */
  lemma ListingAsWritten(total: int, get: Get, isIPv6: string -> bool)
    ensures var l := ScriptListing(total, get, NotImported, isIPv6);
      && Pages(l.trace) == Range(1, LegacyPageCount(total))
      && Indices(l.trace) == Range(1, l.count)
      && Sleeps(l.trace) == []
  {
    ListPagesTally(LegacyPageCount(total), get, NotImported, isIPv6);
    ListPagesShows(Max(LegacyPageCount(total), 0), get, NotImported, isIPv6);
  }

  /** The output file written so far (lines 157-165), and whether the script died with a
    * traceback: that pass guards only `response.json()`. */
  datatype FileRun = FileRun(content: string, crashed: bool)

  function WriteEntry(f: FileRun, e: Entry, isIPv6: string -> bool): FileRun {
    if Bad(e, isIPv6) then FileRun(f.content, true)
    else if KindOf(e.ipStr.value, isIPv6) == V4 then FileRun(f.content + Results.UrlLine(e.ipStr.value), false)
    else f
  }

  function WriteEntries(f: FileRun, es: seq<Entry>, isIPv6: string -> bool): FileRun
    decreases |es|
  {
    if es == [] then f
    else
      var p := WriteEntries(f, es[..|es| - 1], isIPv6);
      if p.crashed then p else WriteEntry(p, es[|es| - 1], isIPv6)
  }

  /** One page of the second pass: the status code is not looked at, a body that is not
    * JSON is reported and skipped, anything else that goes wrong ends the script. */
  function WritePage(f: FileRun, reply: Reply, isIPv6: string -> bool): FileRun {
    match reply
    case ConnectionError => FileRun(f.content, true)
    case Reply(_, NotJson) => f
    case Reply(_, Json(_, matches)) =>
      if matches.None? then FileRun(f.content, true) else WriteEntries(f, matches.value, isIPv6)
  }

  function WritePages(k: int, get: Get, isIPv6: string -> bool): FileRun
    decreases k
  {
    if k <= 0 then FileRun("", false)
    else
      var p := WritePages(k - 1, get, isIPv6);
      if p.crashed then p else WritePage(p, get(k), isIPv6)
  }

  function OutputFile(total: int, get: Get, isIPv6: string -> bool): FileRun {
    WritePages(LegacyPageCount(total), get, isIPv6)
  }

  lemma {:induction false} WriteEntriesStays(f: FileRun, es: seq<Entry>, j: nat, isIPv6: string -> bool)
    requires j <= |es|
    requires WriteEntries(f, es[..j], isIPv6).crashed
    ensures WriteEntries(f, es, isIPv6) == WriteEntries(f, es[..j], isIPv6)
    decreases |es| - j
  {
    if j < |es| {
      var init := es[..|es| - 1];
      assert init[..j] == es[..j];
      WriteEntriesStays(f, init, j, isIPv6);
    } else {
      assert es[..j] == es;
    }
  }

  lemma {:induction false} WritePagesStays(k: int, m: int, get: Get, isIPv6: string -> bool)
    requires k <= m
    requires WritePages(k, get, isIPv6).crashed
    ensures WritePages(m, get, isIPv6) == WritePages(k, get, isIPv6)
    decreases m - k
  {
    if k < m {
      WritePagesStays(k, m - 1, get, isIPv6);
    }
  }

  /** The second pass as the script runs it: the file content built up line by line, the
    * loops left at the first exception that is not caught. */
  method WriteOutput(total: int, get: Get, isIPv6: string -> bool) returns (content: string, crashed: bool)
    ensures FileRun(content, crashed) == OutputFile(total, get, isIPv6)
  {
    var pages := LegacyPageCount(total);
    content, crashed := "", false;
    var page := 1;
    while page <= pages
      invariant 1 <= page <= Max(pages, 0) + 1
      invariant FileRun(content, false) == WritePages(page - 1, get, isIPv6)
    {
      var before := FileRun(content, false);
      var reply := get(page);
      if reply.ConnectionError? || (reply.body.Json? && reply.body.matches.None?) {
        crashed := true;
      } else if reply.body.Json? {
        var es := reply.body.matches.value;
        var j := 0;
        while j < |es| && !crashed
          invariant 0 <= j <= |es|
          invariant WriteEntries(before, es[..j], isIPv6) == FileRun(content, crashed)
        {
          assert es[..j + 1][..j] == es[..j];
          var e := es[j];
          if e.ipStr.None? || KindOf(e.ipStr.value, isIPv6) == Malformed {
            crashed := true;
          } else if KindOf(e.ipStr.value, isIPv6) == V4 {
            content := content + "https://" + e.ipStr.value + "\n";
          }
          j := j + 1;
        }
        if crashed {
          WriteEntriesStays(before, es, j, isIPv6);
        } else {
          assert es[..j] == es;
        }
      }
      assert FileRun(content, crashed) == WritePages(page, get, isIPv6);
      if crashed {
        WritePagesStays(page, pages, get, isIPv6);
        return;
      }
      page := page + 1;
    }
  }

  /** A page on which the second pass raises. */
  predicate PageCrashes(reply: Reply, isIPv6: string -> bool) {
    match reply
    case ConnectionError => true
    case Reply(_, NotJson) => false
    case Reply(_, Json(_, matches)) => matches.None? || FirstBad(matches.value, isIPv6) < |matches.value|
  }

  /** The first of pages 1..k the second pass raises on, or k + 1. */
  function FirstCrash(get: Get, k: int, isIPv6: string -> bool): (p: int)
    ensures 1 <= p <= Max(k, 0) + 1
    decreases k
  {
    if k <= 0 then 1
    else
      var c := FirstCrash(get, k - 1, isIPv6);
      if c <= k - 1 then c else if PageCrashes(get(k), isIPv6) then k else k + 1
  }

  /** `FirstCrash` is what its name says: no page before it raises, and the page there does. */
  lemma {:induction false} FirstCrashIsFirst(get: Get, k: int, isIPv6: string -> bool)
    ensures var p := FirstCrash(get, k, isIPv6);
      && (forall q :: 1 <= q < p ==> !PageCrashes(get(q), isIPv6))
      && (p <= k ==> PageCrashes(get(p), isIPv6))
    decreases k
  {
    if k > 0 {
      FirstCrashIsFirst(get, k - 1, isIPv6);
    }
  }

  /** What one page puts in the file: its IPv4 addresses up to the entry that raises,
    * whatever the status code. */
  function FilePageIps(reply: Reply, isIPv6: string -> bool): seq<string> {
    match reply
    case Reply(_, Json(_, Some(es))) => V4s(es[..FirstBad(es, isIPv6)], isIPv6)
    case _ => []
  }

  function FileHarvest(get: Get, k: int, isIPv6: string -> bool): seq<string>
    decreases k
  {
    if k <= 0 then [] else FileHarvest(get, k - 1, isIPv6) + FilePageIps(get(k), isIPv6)
  }

  lemma LinesSnoc(ips: seq<string>, ip: string)
    ensures Results.Lines(ips + [ip]) == Results.Lines(ips) + Results.UrlLine(ip)
  {
    assert (ips + [ip])[..|ips|] == ips;
  }

  /** Writing one more entry after a clean prefix, in terms of the reference. */
  lemma WriteEntryStep(lines: seq<string>, init: seq<Entry>, last: Entry, isIPv6: string -> bool)
    requires !Bad(last, isIPv6)
    ensures WriteEntry(FileRun(Results.Lines(lines + V4s(init, isIPv6)), false), last, isIPv6) ==
      FileRun(Results.Lines(lines + V4s(init + [last], isIPv6)), false)
  {
    var es := init + [last];
    assert es[..|es| - 1] == init && es[|es| - 1] == last;
    var shown := V4s(init, isIPv6);
    if KindOf(last.ipStr.value, isIPv6) == V4 {
      assert V4s(es, isIPv6) == shown + [last.ipStr.value];
      LinesSnoc(lines + shown, last.ipStr.value);
      assert lines + shown + [last.ipStr.value] == lines + V4s(es, isIPv6);
    } else {
      assert V4s(es, isIPv6) == shown;
    }
  }

  /** The step of `WriteEntriesSpec` past a clean prefix. */
  lemma WriteAfterCleanPrefix(base: seq<string>, es: seq<Entry>, isIPv6: string -> bool)
    requires es != []
    requires var init := es[..|es| - 1];
      && FirstBad(init, isIPv6) == |init|
      && WriteEntries(FileRun(Results.Lines(base), false), init, isIPv6) ==
         FileRun(Results.Lines(base + V4s(init, isIPv6)), false)
    ensures WriteEntries(FileRun(Results.Lines(base), false), es, isIPv6) ==
      FileRun(Results.Lines(base + V4s(es[..FirstBad(es, isIPv6)], isIPv6)), FirstBad(es, isIPv6) < |es|)
  {
    var f := FileRun(Results.Lines(base), false);
    var init, last := es[..|es| - 1], es[|es| - 1];
    var p := WriteEntries(f, init, isIPv6);
    assert WriteEntries(f, es, isIPv6) == WriteEntry(p, last, isIPv6);
    if Bad(last, isIPv6) {
      assert FirstBad(es, isIPv6) == |init|;
      assert es[..|init|] == init;
    } else {
      assert FirstBad(es, isIPv6) == |es|;
      assert es[..|es|] == es && init + [last] == es;
      WriteEntryStep(base, init, last, isIPv6);
    }
  }

  /** The entries of a page add the lines of its IPv4 addresses up to the entry that
    * raises, and raise exactly when one does. */
  lemma {:induction false} WriteEntriesSpec(base: seq<string>, es: seq<Entry>, isIPv6: string -> bool)
    ensures WriteEntries(FileRun(Results.Lines(base), false), es, isIPv6) ==
      FileRun(Results.Lines(base + V4s(es[..FirstBad(es, isIPv6)], isIPv6)), FirstBad(es, isIPv6) < |es|)
    decreases |es|
  {
    if es == [] {
      assert es[..0] == [] && base + [] == base;
    } else {
      var init := es[..|es| - 1];
      WriteEntriesSpec(base, init, isIPv6);
      var i := FirstBad(init, isIPv6);
      if i < |init| {
        assert es[..i] == init[..i];
      } else {
        assert init[..i] == init;
        WriteAfterCleanPrefix(base, es, isIPv6);
      }
    }
  }

  /** The second pass, against the reference: it raises exactly when some page has a
    * reason to, and the file then holds the lines of every address before that point;
    * otherwise it holds the lines of every IPv4 address before a raising entry of pages
    * 1..k, page after page. */
  lemma {:induction false} WritePagesSpec(k: int, get: Get, isIPv6: string -> bool)
    requires k >= 0
    ensures var f := WritePages(k, get, isIPv6);
      var c := FirstCrash(get, k, isIPv6);
      && (f.crashed <==> c <= k)
      && f.content == Results.Lines(FileHarvest(get, Min(c, k), isIPv6))
    decreases k
  {
    if k > 0 {
      WritePagesSpec(k - 1, get, isIPv6);
      var p := WritePages(k - 1, get, isIPv6);
      var base := FileHarvest(get, k - 1, isIPv6);
      var c := FirstCrash(get, k - 1, isIPv6);
      if p.crashed {
        assert FirstCrash(get, k, isIPv6) == c && Min(c, k) == Min(c, k - 1);
        assert WritePages(k, get, isIPv6) == p;
      } else {
        assert c == k && p.content == Results.Lines(base);
        assert WritePages(k, get, isIPv6) == WritePage(p, get(k), isIPv6);
        assert Min(FirstCrash(get, k, isIPv6), k) == k;
        assert FileHarvest(get, k, isIPv6) == base + FilePageIps(get(k), isIPv6);
        match get(k)
        case ConnectionError =>
          assert base + [] == base;
        case Reply(_, NotJson) =>
          assert base + [] == base;
        case Reply(_, Json(_, matches)) =>
          if matches.None? {
            assert base + [] == base;
          } else {
            var es := matches.value;
            assert FilePageIps(get(k), isIPv6) == V4s(es[..FirstBad(es, isIPv6)], isIPv6);
            WriteEntriesSpec(base, es, isIPv6);
          }
      }
    }
  }

  /** The whole second pass: it dies exactly when some page 1..total//100+1 gives it a
    * reason to, and the file holds one URL line per address written before that. */
  lemma OutputSpec(total: int, get: Get, isIPv6: string -> bool)
    ensures var f := OutputFile(total, get, isIPv6);
      var pages := LegacyPageCount(total);
      var c := FirstCrash(get, pages, isIPv6);
      && (f.crashed <==> exists p :: 1 <= p <= pages && PageCrashes(get(p), isIPv6))
      && f.content == Results.Lines(FileHarvest(get, Min(c, pages), isIPv6))
  {
    var pages := LegacyPageCount(total);
    WritePagesSpec(Max(pages, 0), get, isIPv6);
    FirstCrashIsFirst(get, pages, isIPv6);
    var c := FirstCrash(get, pages, isIPv6);
    if c <= pages {
      assert PageCrashes(get(c), isIPv6);
    }
  }

  function BodyOf(reply: Reply): Option<Body> {
    if reply.ConnectionError? then None else Some(reply.body)
  }

  /** The second pass never looks at the status code: two servers that send the same
    * bodies produce the same file. */
  lemma {:induction false} OutputIgnoresStatus(k: int, get1: Get, get2: Get, isIPv6: string -> bool)
    requires forall p :: 1 <= p <= k ==> BodyOf(get1(p)) == BodyOf(get2(p))
    ensures WritePages(k, get1, isIPv6) == WritePages(k, get2, isIPv6)
    decreases k
  {
    if k > 0 {
      OutputIgnoresStatus(k - 1, get1, get2, isIPv6);
      assert BodyOf(get1(k)) == BodyOf(get2(k));
    }
  }

  /** When every page answers 200 with well-formed entries, the file holds exactly the
    * addresses the intended listing printed, as URL lines in the same order. */
  lemma FileMatchesListing(total: int, get: Get, isIPv6: string -> bool)
    requires forall p :: 1 <= p <= LegacyPageCount(total) ==>
      get(p).Reply? && get(p).status == 200 && !PageCrashes(get(p), isIPv6)
    ensures OutputFile(total, get, isIPv6) ==
      FileRun(Results.Lines(Shown(ScriptListing(total, get, Imported, isIPv6).trace)), false)
  {
    var pages := LegacyPageCount(total);
    WritePagesSpec(Max(pages, 0), get, isIPv6);
    FirstCrashIsFirst(get, pages, isIPv6);
    var c := FirstCrash(get, pages, isIPv6);
    assert c == Max(pages, 0) + 1 && Min(c, pages) == pages;
    ListingSpec(total, get, isIPv6);
    HarvestsAgree(pages, get, isIPv6);
  }

  lemma {:induction false} HarvestsAgree(k: int, get: Get, isIPv6: string -> bool)
    requires forall p :: 1 <= p <= k ==> get(p).Reply? && get(p).status == 200
    ensures FileHarvest(get, k, isIPv6) == ListedHarvest(get, k, isIPv6)
    decreases k
  {
    if k > 0 {
      HarvestsAgree(k - 1, get, isIPv6);
      assert get(k).Reply? && get(k).status == 200;
    }
  }

  /** What the probe of page 1 (lines 116-127, 146-149) leaves: a traceback, or the total
    * the rest of the script uses and whether the listing loop runs. */
  datatype Probed = ProbeCrashed | ProbeTotal(total: int, listing: bool)

  function Probe(reply: Reply): (r: Probed)
    ensures r.ProbeCrashed? <==>
      reply.ConnectionError? || (reply.Reply? && reply.status == 200 && reply.body.Json? && reply.body.total.None?)
    ensures r.ProbeTotal? && !r.listing ==> r.total == 0
    ensures r.ProbeTotal? && r.listing <==> reply.Reply? && reply.status == 200 && reply.body.Json? && reply.body.total.Some?
    ensures r.ProbeTotal? && r.listing ==> r.total == reply.body.total.value
  {
    match reply
    case ConnectionError => ProbeCrashed
    case Reply(status, body) =>
      if status != 200 then ProbeTotal(0, false)
      else
        match body
        case NotJson => ProbeTotal(0, false)
        case Json(total, _) => if total.None? then ProbeCrashed else ProbeTotal(total.value, true)
  }

  /** How the script ends: no key in the configuration file, a traceback at the probe, or
    * the listing it printed and, when an output file was named, that file. */
  datatype ScriptEnd = MissingKey | ProbeFailed | Finished(listing: Listing, file: Option<FileRun>)

  /** Lines 104-165, with `load_api_key` given as its result and the output option as
    * `writeFile`. The probe request is not part of the listing's trace. */
  function RunScript(apiKey: Option<string>, get: Get, isIPv6: string -> bool, time: TimeModule, writeFile: bool): ScriptEnd {
    if apiKey.None? then MissingKey
    else
      match Probe(get(1))
      case ProbeCrashed => ProbeFailed
      case ProbeTotal(total, listing) =>
        Finished(
          if listing then ScriptListing(total, get, time, isIPv6) else Listing(0, []),
          if writeFile then Some(OutputFile(total, get, isIPv6)) else None)
  }

  /** A probe answered with an error status or a body that is not JSON leaves the total at
    * 0: nothing is listed, yet the second pass still asks for page 1. */
  lemma FailedProbeStillWrites(apiKey: string, get: Get, isIPv6: string -> bool, time: TimeModule)
    requires get(1).Reply? && (get(1).status != 200 || get(1).body.NotJson?)
    ensures RunScript(Some(apiKey), get, isIPv6, time, true) ==
      Finished(Listing(0, []), Some(WritePages(1, get, isIPv6)))
  {
  }

  /** `n` copies of one entry. */
  function Copies(e: Entry, n: nat): (es: seq<Entry>)
    ensures |es| == n && forall i :: 0 <= i < n ==> es[i] == e
  {
    if n == 0 then [] else Copies(e, n - 1) + [e]
  }

  /** A server whose every page holds `n` copies of one address. */
  function UniformGet(ip: string, n: nat): Get {
    p => Reply(200, Json(Some(0), Some(Copies(Entry(Some(ip)), n))))
  }

  function NoIPv6(s: string): bool { false }

  /** Listing one IPv4 address counts it, and raises only at a pause the script cannot
    * take. */
  lemma ListV4Count(l: Listing, ip: string, time: TimeModule, isIPv6: string -> bool)
    requires Address.IsIPv4(ip)
    ensures var s := ListEntry(l, Entry(Some(ip)), time, isIPv6);
      && s.listing.count == l.count + 1
      && (s.aborted <==> time == NotImported && (l.count + 1) % ResultsPerDelay == 0)
      && (l.count + 1 < ResultsPerDelay ==> !s.aborted)
  {
    assert KindOf(ip, isIPv6) == V4;
  }

  /** A run of IPv4 addresses that does not reach the next multiple of 1000. */
  lemma {:induction false} UniformScan(l: Listing, ip: string, n: nat, time: TimeModule, isIPv6: string -> bool)
    requires Address.IsIPv4(ip)
    requires l.count + n < ResultsPerDelay
    ensures var s := ScanEntries(PageScan(l, false), Copies(Entry(Some(ip)), n), time, isIPv6);
      !s.aborted && s.listing.count == l.count + n
    decreases n
  {
    if n > 0 {
      var e := Entry(Some(ip));
      var es := Copies(e, n);
      assert es[..n - 1] == Copies(e, n - 1) && es[n - 1] == e;
      UniformScan(l, ip, n - 1, time, isIPv6);
      var q := ScanEntries(PageScan(l, false), Copies(e, n - 1), time, isIPv6);
      assert !q.aborted;
      var s := ScanEntries(PageScan(l, false), es, time, isIPv6);
      assert s == ListEntry(q.listing, e, time, isIPv6);
      ListV4Count(q.listing, ip, time, isIPv6);
      assert !s.aborted && s.listing.count == q.listing.count + 1;
    }
  }

  /** With `time` missing, a page of 1001 copies of an IPv4 address listed from a fresh
    * start stops at the 1000th: the pause after it raises. */
  lemma AsWrittenStopsAtPause(ip: string, isIPv6: string -> bool)
    requires Address.IsIPv4(ip)
    ensures var start := Emit(Listing(0, []), Requested(1));
      ScanEntries(PageScan(start, false), Copies(Entry(Some(ip)), 1001), NotImported, isIPv6).listing.count == 1000
  {
    var e := Entry(Some(ip));
    var start := Emit(Listing(0, []), Requested(1));
    assert Copies(e, 1001)[..1000] == Copies(e, 1000) && Copies(e, 1001)[1000] == e;
    assert Copies(e, 1000)[..999] == Copies(e, 999) && Copies(e, 1000)[999] == e;
    UniformScan(start, ip, 999, NotImported, isIPv6);
    var a999 := ScanEntries(PageScan(start, false), Copies(e, 999), NotImported, isIPv6);
    ListV4Count(a999.listing, ip, NotImported, isIPv6);
    var a1000 := ListEntry(a999.listing, e, NotImported, isIPv6);
    assert a1000.aborted && a1000.listing.count == 1000;
    assert ScanEntries(PageScan(start, false), Copies(e, 1000), NotImported, isIPv6) == a1000;
    assert ScanEntries(PageScan(start, false), Copies(e, 1001), NotImported, isIPv6) == a1000;
  }

  /** With `time` imported, the same page is listed to the end. */
  lemma IntendedListsAll(ip: string, isIPv6: string -> bool)
    requires Address.IsIPv4(ip)
    ensures var start := Emit(Listing(0, []), Requested(1));
      ScanEntries(PageScan(start, false), Copies(Entry(Some(ip)), 1001), Imported, isIPv6).listing.count == 1001
  {
    var e := Entry(Some(ip));
    var start := Emit(Listing(0, []), Requested(1));
    assert Copies(e, 1001)[..1000] == Copies(e, 1000) && Copies(e, 1001)[1000] == e;
    assert Copies(e, 1000)[..999] == Copies(e, 999) && Copies(e, 1000)[999] == e;
    UniformScan(start, ip, 999, Imported, isIPv6);
    var b999 := ScanEntries(PageScan(start, false), Copies(e, 999), Imported, isIPv6);
    ListV4Count(b999.listing, ip, Imported, isIPv6);
    var b1000 := ListEntry(b999.listing, e, Imported, isIPv6);
    assert !b1000.aborted && b1000.listing.count == 1000;
    assert ScanEntries(PageScan(start, false), Copies(e, 1000), Imported, isIPv6) == b1000;
    ListV4Count(b1000.listing, ip, Imported, isIPv6);
    var b1001 := ListEntry(b1000.listing, e, Imported, isIPv6);
    assert b1001.listing.count == 1001;
    assert ScanEntries(PageScan(start, false), Copies(e, 1001), Imported, isIPv6) == b1001;
  }

  /** With a total of 0 the script lists page 1 only, whatever `time` is. */
  lemma ZeroTotalListsPageOne(ip: string, time: TimeModule, isIPv6: string -> bool)
    ensures var start := Emit(Listing(0, []), Requested(1));
      ScriptListing(0, UniformGet(ip, 1001), time, isIPv6) ==
      ScanEntries(PageScan(start, false), Copies(Entry(Some(ip)), 1001), time, isIPv6).listing
  {
    var get := UniformGet(ip, 1001);
    assert LegacyPageCount(0) == 1;
    assert get(1) == Reply(200, Json(Some(0), Some(Copies(Entry(Some(ip)), 1001))));
  }

  /** The script as written loses addresses: with a total of 0 it lists page 1, and on a
    * page of 1001 copies of one IPv4 address its first pause raises NameError after the
    * 1000th, so the 1001st is never printed. The intended script prints all 1001. */
  lemma MissingImportDrops(ip: string, isIPv6: string -> bool)
    requires Address.IsIPv4(ip)
    ensures var get := UniformGet(ip, 1001);
      && |ListedHarvest(get, LegacyPageCount(0), isIPv6)| == 1001
      && ScriptListing(0, get, NotImported, isIPv6).count == 1000
      && ScriptListing(0, get, Imported, isIPv6).count == 1001
  {
    ZeroTotalListsPageOne(ip, NotImported, isIPv6);
    ZeroTotalListsPageOne(ip, Imported, isIPv6);
    AsWrittenStopsAtPause(ip, isIPv6);
    IntendedListsAll(ip, isIPv6);
    ListingSpec(0, UniformGet(ip, 1001), isIPv6);
  }

  /** The same for the address 1.1.1.1, on a server that reports no IPv6 address. */
  lemma MissingImportDropsAddresses()
    ensures var get := UniformGet(Address.Quad(1, 1, 1, 1), 1001);
      && |ListedHarvest(get, LegacyPageCount(0), NoIPv6)| == 1001
      && ScriptListing(0, get, NotImported, NoIPv6).count == 1000
      && ScriptListing(0, get, Imported, NoIPv6).count == 1001
  {
    Address.QuadIsIPv4(1, 1, 1, 1);
    MissingImportDrops(Address.Quad(1, 1, 1, 1), NoIPv6);
  }
}
