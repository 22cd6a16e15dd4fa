/** The parts of the host-search API's JSON that sipg/core.py reads.
  *
  * A key missing from a JSON object is `None`. A field present with the value null is
  * treated the same way. */
module Shodan {
  import opened Wrappers

  datatype Location = Location(city: Option<string>, countryName: Option<string>)

  /** One element of `matches`; `ssl` and `http` are nested objects kept as opaque text. */
  datatype Match = Match(
    ipStr: Option<string>,
    port: Option<int>,
    hostnames: Option<seq<string>>,
    org: Option<string>,
    location: Option<Location>,
    timestamp: Option<string>,
    domains: Option<seq<string>>,
    ssl: Option<string>,
    http: Option<string>,
    data: Option<string>)

  /** The decoded body of one search request. */
  datatype Response = Response(total: Option<int>, matches: Option<seq<Match>>)

  /** What `ShodanAPIError` reports: no key configured, the request failed
    * (network error, timeout, non-2xx status), the body is not JSON, or a
    * Python error caught by the generator's catch-all handler. */
  datatype ApiError = NotConfigured | RequestFailed | InvalidJson | Unexpected

  /** `_make_request` on the search endpoint for one page of one query with one key. */
  type Fetch = int -> Result<Response, ApiError>
}
