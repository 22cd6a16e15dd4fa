/** What sipg/core.py makes of the matches the walk yields: the detail record of
  * `search_with_details`, the Location and Hostnames cells of `display_results_table`
  * and the lines `save_results_to_file` writes. */
module Results {
  import opened Wrappers
  import opened Basics
  import opened Text
  import opened Shodan

  /** How many characters of the banner `data` a detail record keeps. */
  const DataPreview := 200

  /** The dictionary built for each kept match. */
  datatype Details = Details(
    ip: string,
    port: Option<int>,
    hostnames: seq<string>,
    org: Option<string>,
    location: Location,
    timestamp: Option<string>,
    domains: seq<string>,
    ssl: Option<string>,
    http: Option<string>,
    data: string)

  /** `s[:n]` for n >= 0. */
  function Take(s: string, n: nat): (r: string)
    ensures |r| == Min(n, |s|) && IsPrefix(r, s)
  {
    if |s| <= n then s else s[..n]
  }

  /** The detail record of a kept match: lists and the location default to empty, the
    * banner is cut to its first 200 characters, the other fields are copied. */
  function DetailsOf(m: Match): (d: Details)
    requires m.ipStr.Some?
    ensures d.ip == m.ipStr.value
    ensures d.hostnames == m.hostnames.GetOr([]) && d.domains == m.domains.GetOr([])
    ensures d.location == m.location.GetOr(Location(None, None))
    ensures |d.data| == Min(DataPreview, |m.data.GetOr("")|) && IsPrefix(d.data, m.data.GetOr(""))
  {
    Details(
      m.ipStr.value, m.port, m.hostnames.GetOr([]), m.org,
      m.location.GetOr(Location(None, None)), m.timestamp, m.domains.GetOr([]),
      m.ssl, m.http, Take(m.data.GetOr(""), DataPreview))
  }

  predicate HaveAddresses(items: seq<Match>) {
    forall i :: 0 <= i < |items| ==> items[i].ipStr.Some?
  }

  /** The address strings `search_ips` yields for some kept matches. */
  function Ips(items: seq<Match>): (ips: seq<string>)
    requires HaveAddresses(items)
    ensures |ips| == |items| && forall i :: 0 <= i < |items| ==> items[i].ipStr == Some(ips[i])
  {
    seq(|items|, i requires 0 <= i < |items| && HaveAddresses(items) => items[i].ipStr.value)
  }

  /** The records `search_with_details` yields for the same matches. */
  function DetailsList(items: seq<Match>): (ds: seq<Details>)
    requires HaveAddresses(items)
    ensures |ds| == |items| && forall i :: 0 <= i < |items| ==> ds[i] == DetailsOf(items[i])
  {
    seq(|items|, i requires 0 <= i < |items| && HaveAddresses(items) => DetailsOf(items[i]))
  }

  /** Both generators report the same addresses in the same order. */
  lemma DetailsCarryIps(items: seq<Match>)
    requires HaveAddresses(items)
    ensures var ds := DetailsList(items);
      seq(|ds|, i requires 0 <= i < |ds| => ds[i].ip) == Ips(items)
  {
  }

  /** The Location cell: city and country name, "N/A" for each one missing. */
  function LocationCell(l: Location): string {
    l.city.GetOr("N/A") + ", " + l.countryName.GetOr("N/A")
  }

  /** The cell splits back at its first comma into the city and the country name. */
  lemma LocationCellParts(l: Location)
    requires ',' !in l.city.GetOr("N/A") && ',' !in l.countryName.GetOr("N/A")
    ensures Split(LocationCell(l), ',') == [l.city.GetOr("N/A"), " " + l.countryName.GetOr("N/A")]
  {
    var city, country := l.city.GetOr("N/A"), l.countryName.GetOr("N/A");
    assert LocationCell(l) == city + [','] + (" " + country);
    SplitAtFirst(city, ',', " " + country);
    assert ',' !in " " + country;
  }

  /** The Hostnames cell: the first two hostnames joined with ", ", then how many more
    * there are; "N/A" when that text is empty. */
  function HostnamesCell(hs: seq<string>): string {
    var shown := Join(hs[..Min(2, |hs|)], ", ");
    var cell := if |hs| > 2 then shown + " (+" + NatToString(|hs| - 2) + " more)" else shown;
    if cell == "" then "N/A" else cell
  }

  /** What the Hostnames cell tells a reader: nothing for no hostnames, the hostname itself
    * for one, the first two for more, and then a decimal count of the ones not shown. */
  lemma HostnamesCellShows(hs: seq<string>)
    ensures hs == [] ==> HostnamesCell(hs) == "N/A"
    ensures |hs| == 1 && hs[0] != "" ==> HostnamesCell(hs) == hs[0]
    ensures |hs| == 1 && hs[0] == "" ==> HostnamesCell(hs) == "N/A"
    ensures |hs| == 2 ==> HostnamesCell(hs) == hs[0] + ", " + hs[1]
    ensures |hs| >= 2 ==> IsPrefix(hs[0] + ", " + hs[1], HostnamesCell(hs))
    ensures |hs| > 2 ==>
      exists digits :: AllDigits(digits) && DigitsValue(digits) == |hs| - 2 &&
        HostnamesCell(hs) == hs[0] + ", " + hs[1] + " (+" + digits + " more)"
  {
    if |hs| == 1 {
      assert hs[..1] == [hs[0]];
    } else if |hs| >= 2 {
      assert hs[..2] == [hs[0], hs[1]];
      assert [hs[0], hs[1]][..1] == [hs[0]];
      var shown := hs[0] + ", " + hs[1];
      assert Join(hs[..2], ", ") == shown;
      if |hs| > 2 {
        var digits := NatToString(|hs| - 2);
        NatToStringRoundTrip(|hs| - 2);
        assert HostnamesCell(hs) == shown + " (+" + digits + " more)";
        assert IsPrefix(shown, shown + " (+" + digits + " more)");
      }
    }
  }

  /** The cells of one table row that the model renders. */
  datatype Row = Row(ip: string, location: string, hostnames: string)

  /** The rows of the results table, one per record in order; no table at all (only a
    * notice) when there are no records. */
  function Table(results: seq<Details>): Option<seq<Row>> {
    if results == [] then None
    else Some(seq(|results|, i requires 0 <= i < |results| =>
      Row(results[i].ip, LocationCell(results[i].location), HostnamesCell(results[i].hostnames))))
  }

  /** The table of what `search_with_details` yielded: no table exactly when nothing was
    * yielded; otherwise its IP column is what `search_ips` yields for the same matches, and
    * a match without location or hostnames shows "N/A, N/A" and "N/A". */
  lemma TableOfSearch(items: seq<Match>)
    requires HaveAddresses(items)
    ensures Table(DetailsList(items)).None? <==> Ips(items) == []
    ensures var t := Table(DetailsList(items));
      t.Some? ==> |t.value| == |items| && seq(|t.value|, i requires 0 <= i < |t.value| => t.value[i].ip) == Ips(items)
    ensures var t := Table(DetailsList(items));
      forall i :: 0 <= i < |items| && items[i].location.None? ==> t.Some? && t.value[i].location == "N/A, N/A"
    ensures var t := Table(DetailsList(items));
      forall i :: 0 <= i < |items| && items[i].hostnames.None? ==> t.Some? && t.value[i].hostnames == "N/A"
  {
    var ds := DetailsList(items);
    var t := Table(ds);
    assert |ds| == |items|;
    if items != [] {
      forall i | 0 <= i < |items| && items[i].hostnames.None?
        ensures t.value[i].hostnames == "N/A"
      {
        HostnamesCellShows([]);
      }
    }
  }

  /** One line of the output file: the address as an https URL. */
  function UrlLine(ip: string): string {
    "https://" + ip + "\n"
  }

  /** The whole output file for some addresses, in order. */
  function Lines(ips: seq<string>): string
    decreases |ips|
  {
    if ips == [] then "" else Lines(ips[..|ips| - 1]) + UrlLine(ips[|ips| - 1])
  }

  function Urls(ips: seq<string>): (urls: seq<string>)
    ensures |urls| == |ips| && forall i :: 0 <= i < |ips| ==> urls[i] == "https://" + ips[i]
  {
    seq(|ips|, i requires 0 <= i < |ips| => "https://" + ips[i])
  }

  lemma {:induction false} LinesCons(ip: string, rest: seq<string>)
    ensures Lines([ip] + rest) == UrlLine(ip) + Lines(rest)
    decreases |rest|
  {
    var all := [ip] + rest;
    if rest == [] {
      assert all[..0] == [];
    } else {
      assert all[..|all| - 1] == [ip] + rest[..|rest| - 1];
      LinesCons(ip, rest[..|rest| - 1]);
    }
  }

  /** Reading the file back line by line gives one URL per address, in order, as long as
    * no address holds a line break. */
  lemma {:induction false} LinesReadBack(ips: seq<string>)
    requires forall i :: 0 <= i < |ips| ==> '\n' !in ips[i]
    ensures ReadLines(Lines(ips)) == Urls(ips)
    decreases |ips|
  {
    if ips != [] {
      var rest := ips[1..];
      var line := "https://" + ips[0];
      assert '\n' !in line;
      calc {
        ReadLines(Lines(ips));
        { assert ips == [ips[0]] + rest; LinesCons(ips[0], rest); }
        ReadLines(line + "\n" + Lines(rest));
        { ReadLinesCons(line, Lines(rest)); }
        [line] + ReadLines(Lines(rest));
        { LinesReadBack(rest); }
        [line] + Urls(rest);
      }
      assert Urls(ips) == [line] + Urls(rest);
    }
  }
}
