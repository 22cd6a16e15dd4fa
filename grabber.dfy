/** The `ShodanIPGrabber` object of sipg/core.py: its two search generators, consumed to
  * the end, and the file writer. */
module Grabber {
  import opened Wrappers
  import opened Shodan
  import Paging
  import PagingProperties
  import Results
  import Address
  import Configuration
  import Text

  class IpGrabber {
    const config: Configuration.Config

    constructor (config: Configuration.Config)
      ensures this.config == config
    {
      this.config := config;
    }

    /** `search_ips`: the addresses yielded, the requests and sleeps made, and how the
      * generator ended. Every address is a dotted-quad IPv4 address. */
    method SearchIps(maxResults: Option<int>, delay: real, fetch: Fetch)
      returns (ips: seq<string>, trace: seq<Paging.Event>, status: Paging.Status)
      ensures var r := Paging.SearchRun(config.GetApiKey(), maxResults, delay, fetch);
        && Results.HaveAddresses(r.items)
        && ips == Results.Ips(r.items) && trace == r.trace && status == r.status
      ensures forall i :: 0 <= i < |ips| ==> ips[i] != "" && Address.IsIPv4(ips[i])
    {
      var r := Paging.Walk(config.GetApiKey(), maxResults, delay, fetch);
      PagingProperties.RunItemsSelected(config.GetApiKey(), maxResults, delay, fetch);
      ips, trace, status := Results.Ips(r.items), r.trace, r.status;
    }

    /** `search_with_details`: the same walk, yielding one detail record per address. */
    method SearchWithDetails(maxResults: Option<int>, delay: real, fetch: Fetch)
      returns (records: seq<Results.Details>, trace: seq<Paging.Event>, status: Paging.Status)
      ensures var r := Paging.SearchRun(config.GetApiKey(), maxResults, delay, fetch);
        && Results.HaveAddresses(r.items)
        && records == Results.DetailsList(r.items) && trace == r.trace && status == r.status
      ensures forall i :: 0 <= i < |records| ==> Address.IsIPv4(records[i].ip)
    {
      var r := Paging.Walk(config.GetApiKey(), maxResults, delay, fetch);
      PagingProperties.RunItemsSelected(config.GetApiKey(), maxResults, delay, fetch);
      records, trace, status := Results.DetailsList(r.items), r.trace, r.status;
    }

    /** `save_results_to_file`: the text written, one https URL line per address; nothing
      * when the file cannot be opened (the IOError is reported, not raised). */
    method SaveResultsToFile(results: seq<string>, canOpen: bool) returns (written: Option<string>)
      ensures canOpen ==> written == Some(Results.Lines(results))
      ensures !canOpen ==> written == None
    {
      if !canOpen {
        return None;
      }
      var content := "";
      var i := 0;
      while i < |results|
        invariant 0 <= i <= |results|
        invariant content == Results.Lines(results[..i])
      {
        assert results[..i + 1][..i] == results[..i];
        content := content + Results.UrlLine(results[i]);
        i := i + 1;
      }
      assert results[..|results|] == results;
      return Some(content);
    }
  }

  /** The command line's search with an output file: the addresses `search_ips` yielded
    * are saved only when the search did not fail (a raised ShodanAPIError skips the save),
    * and reading the file back gives one URL per yielded address, in the order yielded. */
  method SearchAndSave(grabber: IpGrabber, maxResults: Option<int>, delay: real, fetch: Fetch)
    returns (ips: seq<string>, status: Paging.Status, written: Option<string>)
    ensures var r := Paging.SearchRun(grabber.config.GetApiKey(), maxResults, delay, fetch);
      Results.HaveAddresses(r.items) && ips == Results.Ips(r.items) && status == r.status
    ensures written.None? <==> status.Failed?
    ensures written.Some? ==> Text.ReadLines(written.value) == Results.Urls(ips)
  {
    var trace;
    ips, trace, status := grabber.SearchIps(maxResults, delay, fetch);
    if status.Failed? {
      return ips, status, None;
    }
    written := grabber.SaveResultsToFile(ips, true);
    forall i | 0 <= i < |ips|
      ensures '\n' !in ips[i]
    {
      Address.IPv4IsOneLine(ips[i]);
    }
    Results.LinesReadBack(ips);
  }
}
