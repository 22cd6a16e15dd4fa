# sipg in Dafny

sipg ("Shodan IP Grabber") asks the Shodan host-search API for the hosts that match a
query and collects their IPv4 addresses. This project models its core and proves
properties of that model:

- **The `ShodanIPGrabber` search generators** (`search_ips`, `search_with_details` in
  `sipg/core.py`). The run starts with the API key check and a probe of page 1 for the
  `total`. The page count is `ceil(total / 100)`, cut down to the pages `max_results`
  needs. Then comes the walk over pages 1..N. It keeps the matches whose `ip_str` is a
  valid IPv4 address, stops at the cap, sleeps `delay` seconds between pages and stops at
  the first failed request (`paging.dfy`, `paging_properties.dfy`). The two generators are
  copies that differ only in what they yield, so both project one engine (`grabber.dfy`).
- **The detail record** built for each match, **the Location and Hostnames cells** of
  the results table, and the URL-per-line output file (`results.dfy`).
- **The IPv4 test**, which is `ipaddress.ip_address(ip).version == 4` (`address.dfy`), and
  the Python string built-ins it and the output rely on (`text.dfy`).
- **The `Config` settings store** of `sipg/config.py` (`configuration.dfy`). It is a class
  whose dictionary is written through to a file object after every change.
- **The older command-line script `sipg.py`** (`legacy.dfy`). It covers the probe, the
  numbered listing over pages `1..total//100+1` with a growing pause after every
  thousandth address, and the second pass that writes the output file.

The server is a parameter: a total function from page number to the response
(`Shodan.Fetch` for `sipg/core.py`, `LegacyScript.Get` for `sipg.py`). Each request,
each sleep and each line the script prints are recorded as events in a trace, so the
proofs can state what was requested and when.

The core has no start-page or end-page option. Both programs always walk from page 1, so
the model has no such parameter either.

## Model

| member | source | states |
|---|---|---|
| Paging.Walk | sipg/core.py:61-144 | The generator, consumed to the end, produces exactly the run `SearchRun` describes: the key check, the probe of page 1, then the page walk. |
| Paging.SearchRun | sipg/core.py:61-144 | The whole generator as a function: the key check, the probe, the page count and the walk of `WalkTo`, with `Completed` when the walk runs to the end. `Walk` is proved to compute it; `SearchYield`, `SearchTrace` and `ProbeOutcomes` state what it yields and requests. |
| Paging.Step | sipg/core.py:116-139 | One iteration of the page loop: request the page, stop on an error, scan its matches, then stop, sleep or raise on a negative delay. `PageSettles` and the `Step*` lemmas state its outcomes. |
| Paging.WalkTo | sipg/core.py:116-139 | The run after the probe and pages 1..k, a fold of `Step`. `WalkSpec` states its invariant against the reference harvest and schedule. |
| Paging.Scan | sipg/core.py:125-133 | The loop over one page's matches, as a fold of `Visit`. `ScanSpec` states what it keeps. |
| Paging.Visit | sipg/core.py:126-133 | The body of the match loop: a selected match is yielded and counted, and the count reaching a cap stops the run. `ScanSpec` states its effect. |
| Paging.TotalPages | sipg/core.py:101-105 | `ceil(total/100)`, cut to `ceil(max_results/100)` when `max_results` is truthy. `TotalPagesFit` states what it means. |
| Paging.HasCap | sipg/core.py:104 | `if max_results:`, false for None and for 0. `TotalPagesFit` and `ScanSpec` state its effect on the page count and the cap. |
| Paging.CeilPages | sipg/core.py:102 | `(total + 99) // 100`. `CeilPagesBounds` states that it is the least page count holding that many results. |
| Paging.Selected | sipg/core.py:126-128 | `ip and self._is_valid_ipv4(ip)`: a present, non-empty `ip_str` that is IPv4. `EligibleMembers` uses it as the filter. |
| Paging.WalkPages | sipg/core.py:107-139 | The page loop over pages 1..N, with `ip_count` and the trace in local variables, equals the fold `WalkTo` over N pages. |
| Paging.ScanPage | sipg/core.py:125-133 | The loop over one page's matches counts as many addresses as it keeps. It equals the fold `Scan` and reports whether the cap was hit. |
| Paging.ScanSnoc | sipg/core.py:126-133 | Scanning one more match is one more visit. |
| Paging.ScanStays | sipg/core.py:132-133 | Once the cap ends a page's scan, the remaining matches change nothing. |
| Paging.WalkStays | sipg/core.py:116-144 | Once the walk stops (cap, error), the remaining pages change nothing. |
| Paging.StopOnError | sipg/core.py:120-123 | A failed request on page k ends the run with that error. Page k is the last request, and it is not followed by a sleep. |
| Paging.PageSettles | sipg/core.py:125-139 | How an answered page ends the walk: a stopped scan stands, a negative delay raises `Unexpected`, otherwise the walk sleeps and goes on, or ends at page N. |
| PagingProperties.EligibleMembers | sipg/core.py:126-128 | The reference filter keeps exactly the matches with a non-empty IPv4 `ip_str`. |
| PagingProperties.EligibleAppend | sipg/core.py:126-128 | Filtering two pages one after the other is filtering their concatenation. |
| PagingProperties.CeilPagesBounds | sipg/core.py:101-102 | `(n + 99) // 100` is the least page count whose pages hold n results. |
| PagingProperties.TotalPagesFit | sipg/core.py:101-105 | The page count is the least one whose pages hold `total` results, or `min(total, max_results)` results under a cap. `max_results` of None or 0 means no cap. |
| PagingProperties.PageCountExamples | sipg/core.py:101-105 | Concrete page counts: 250 results make 3 pages, a cap of 120 makes 2, a cap of 0 is no cap, and a cap of 1000 does not add pages. |
| PagingProperties.ScanSpec | sipg/core.py:125-133 | One page's scan appends the page's kept matches to the items, cut at the cap. It is capped exactly when the cap is reached, and it leaves the trace alone. |
| PagingProperties.PageScanFacts | sipg/core.py:119-133 | The scan of an answered page k of a running walk holds the harvest of pages 1..k, cut at the cap, after the schedule of pages 1..k-1 and the request for k. |
| PagingProperties.StepFails | sipg/core.py:120-123 | A failing page k preserves the walk invariant. |
| PagingProperties.StepRunsOn | sipg/core.py:135-139 | An answered page k below N, with no cap hit and a delay of at least 0: the step is the page's scan followed by one `Sleep(delay)` event, the walk runs on, and the walk invariant holds. |
| PagingProperties.StepSleepRaises | sipg/core.py:138-144 | A negative delay after an answered page k below N: the step is the page's scan ending as `Failed(Unexpected)` with no sleep event. Its items are the whole harvest of pages 1..k, and the walk invariant holds. |
| PagingProperties.StepEnds | sipg/core.py:132-133 | A page that hits the cap, or page N: the step is the page's scan itself, with no sleep event after it, and the walk invariant holds. |
| PagingProperties.StepAnswered | sipg/core.py:116-139 | An answered page preserves the walk invariant, whichever way it ends. |
| PagingProperties.StepStopped | sipg/core.py:132-133 | A page after the walk stopped changes nothing, and the invariant holds. |
| PagingProperties.WalkSpec | sipg/core.py:116-139 | After every page k the walk satisfies its invariant. The items are a prefix of the harvest of pages 1..k. A running walk has every match so far, and its trace is the request/sleep schedule. Capped means exactly `max_results` items. A stopped walk ended on a request. |
| PagingProperties.ProbeOutcomes | sipg/core.py:76-96 | Without a truthy key nothing is requested. A failed probe ends the run after one request with that error. A total of 0, or a missing one, ends it with no results. |
| PagingProperties.SearchYield | sipg/core.py:61-144 | After a successful probe, the items are a prefix of the harvest of pages 1..N, and all are selected. A completed run yields all of it, with every page answered. Capped holds iff exactly `max_results` items were yielded, and never more are yielded. When every page answers and sleeping is possible, the items are exactly the harvest cut at the cap. |
| PagingProperties.RunItemsSelected | sipg/core.py:126-130 | Whatever the outcome, every item yielded is a match with a non-empty IPv4 `ip_str`. |
| PagingProperties.HarvestSelected | sipg/core.py:126-128 | Every match in the harvest is selected. |
| PagingProperties.SearchTrace | sipg/core.py:87-139 | A completed run requests page 1, then pages 1..N, sleeping after each page but the last. A stopped run ends on the request for some page s ≤ N, with nothing after it. |
| PagingProperties.VisitsStepPages | sipg/core.py:116-123 | Each page of the schedule adds one request for that page. |
| PagingProperties.VisitsStepSleeps | sipg/core.py:138-139 | Each page of the schedule adds a sleep below N and none at N. |
| PagingProperties.VisitsPages | sipg/core.py:116 | The schedule requests pages 1..k in increasing order. |
| PagingProperties.VisitsSleeps | sipg/core.py:138-139 | The schedule sleeps `delay` once per page below N. |
| PagingProperties.CompletedWalk | sipg/core.py:88-139 | A completed walk of N pages requests 1 then 1..N, sleeps N-1 times, and ends on the request for page N. |
| Address.DigitsValueAtLeastFirst | sipg/core.py:155-156 | The value of a digit string is at least its first digit. |
| Address.IsIPv4 | sipg/core.py:146-158 | `ipaddress.ip_address(ip).version == 4`, as dotted-quad rules (four decimal octets 0..255, no leading zeros). `QuadIsIPv4` and `IPv4IsQuad` state both directions. |
| Address.CanonicalDigits | sipg/core.py:155-156 | An accepted octet without a leading zero is the `str` of its value. |
| Address.NatToStringShort | sipg/core.py:155-156 | Numbers below 1000 have at most three digits. |
| Address.OctetText | sipg/core.py:155-156 | The decimal text of 0..255 is an accepted octet without a dot. |
| Address.QuadIsIPv4 | sipg/core.py:146-158 | Every canonical dotted quad a.b.c.d with parts ≤ 255 is accepted, and it splits back into its four parts. |
| Address.IPv4IsQuad | sipg/core.py:146-158 | Every accepted string is the canonical dotted quad of its parts' values. |
| Address.IPv4IsOneLine | sipg/core.py:128 | An accepted address is non-empty and has no line break. |
| Results.Take | sipg/core.py:236 | `s[:n]` has length `min(n, len(s))` and is a prefix of s. |
| Results.DetailsOf | sipg/core.py:226-237 | The record carries the match's `ip_str`. Hostnames and domains default to the empty list, and location to the empty dictionary. The banner is cut to its first 200 characters. |
| Results.Ips | sipg/core.py:127-130 | `search_ips` yields one address per kept match, in order: that match's `ip_str`. |
| Results.DetailsList | sipg/core.py:221-239 | `search_with_details` yields one record per kept match, in order. |
| Results.DetailsCarryIps | sipg/core.py:127-130 | On the same matches, the two generators report the same addresses in the same order. |
| Results.LocationCellParts | sipg/core.py:272-273 | When neither the city nor the country name holds a comma, the Location cell splits at its comma back into the city and, with a leading space, the country name, "N/A" standing for each one missing. A country name with a comma, such as "Korea, Republic of", does not split back. |
| Results.LocationCell | sipg/core.py:272-273 | The Location cell, city and country name with "N/A" for each missing. `LocationCellParts` states it. |
| Results.HostnamesCellShows | sipg/core.py:275-277 | The Hostnames cell is "N/A" for no hostnames or one empty hostname, and the hostname itself for one non-empty one. For exactly two it is the two joined by ", ". For more than two it is the first two joined by ", " followed by " (+k more)", k the decimal count of the rest. |
| Results.HostnamesCell | sipg/core.py:275-277 | The Hostnames cell. `HostnamesCellShows` states exactly what it shows for zero, one, two and more hostnames. |
| Results.TableOfSearch | sipg/core.py:260-283 | The results table of what `search_with_details` yielded: there is no table exactly when `search_ips` yields nothing on the same matches. Otherwise the table has one row per record, its IP column is the `search_ips` output in order, and a match without location or hostnames shows "N/A, N/A" and "N/A". |
| Results.Table | sipg/core.py:260-285 | The rows of the results table: none (only a notice) for no records, else one row per record with its address, Location cell and Hostnames cell. `TableOfSearch` states it against the search. |
| Results.Urls | sipg/core.py:298-299 | One `https://` URL per address, in order. |
| Results.UrlLine | sipg/core.py:299 | One line of the output file, `https://<ip>` and a newline. |
| Results.Lines | sipg/core.py:297-299 | The whole output file, one `UrlLine` per address in order. `LinesReadBack` states that it reads back as `Urls`. |
| Results.LinesCons | sipg/core.py:298-299 | The file for one address and then the rest is that ip's line, then the rest's lines. |
| Results.LinesReadBack | sipg/core.py:296-299 | Reading the written file back line by line gives exactly one URL per address, in order, provided no address has a line break. |
| Grabber.IpGrabber.constructor | sipg/core.py:26-32 | The grabber keeps the `Config` it is given; both searches read the API key from it. |
| Grabber.IpGrabber.SearchIps | sipg/core.py:61-144 | The addresses, trace and ending are those of the run. Every address yielded is non-empty and valid IPv4. |
| Grabber.IpGrabber.SearchWithDetails | sipg/core.py:160-252 | The records, trace and ending are those of the same run. Every record's address is valid IPv4. |
| Grabber.IpGrabber.SaveResultsToFile | sipg/core.py:289-302 | The file written holds one `https://<ip>` line per address, in order. When the file cannot be opened, nothing is written and nothing is raised. |
| Grabber.SearchAndSave | sipg/cli.py:118-128 | The search with an output file: the file is written iff the search did not fail (a raised error skips the save). Reading it back gives one URL per yielded address, in the order yielded. |
| Configuration.Loaded | sipg/config.py:35-44 | A stored JSON object loads as itself. A file that does not exist, cannot be opened or is not valid JSON loads as the empty dictionary. |
| Configuration.ApiKeyOf | sipg/config.py:54-60 | The key is present (not None) iff `api_key` is stored with a non-null value. |
| Configuration.ConfigFile.constructor | sipg/config.py:25 | A file object over the given disk state. |
| Configuration.Config.constructor | sipg/config.py:14-29 | A new `Config` holds what loading its file gives, and it leaves the file alone. |
| Configuration.Config.LoadConfig | sipg/config.py:35-44 | The settings become what loading the file gives. |
| Configuration.Config.SaveConfig | sipg/config.py:46-52 | The file holds exactly the in-memory settings. |
| Configuration.Config.GetApiKey | sipg/config.py:54-60 | The stored key, or None when there is none. |
| Configuration.Config.SetApiKey | sipg/config.py:62-69 | Only `api_key` changes, and it now reads back as the given key. The file is written through. |
| Configuration.Config.GetSetting | sipg/config.py:71-81 | The stored value (even a stored None), else the default. |
| Configuration.Config.SetSetting | sipg/config.py:83-91 | Only the given key changes, it reads back as the given value, and every other setting is unchanged. The file is written through. |
| Configuration.Config.GetAllSettings | sipg/config.py:93-99 | A copy equal to the settings. |
| Configuration.Config.ClearApiKey | sipg/config.py:101-105 | With a stored key: it is removed, the other settings are kept, and the file is written. Without one: nothing changes and nothing is saved. |
| Configuration.Config.IsConfigured | sipg/config.py:107-113 | True iff `get_api_key()` is not None. |
| Configuration.Reload | sipg/config.py:14-52 | A second `Config` over the same file, built after the first has saved, sees the same settings and the same key. |
| Configuration.EmptyKeyConfiguredButFalsy | sipg/config.py:107-113 | A stored empty key counts as configured. Yet the search treats it as falsy and refuses it as "no API key" (sipg/core.py:76-78). |
| Configuration.Truthy | sipg/core.py:76-78 | Python truthiness of the stored key, which `not api_key` tests before any request. |
| LegacyScript.DelaySeconds | sipg.py:28-31 | A pause is due iff the count is a positive multiple of `results_per_delay`. It is then `delay_interval` seconds per `results_per_delay` addresses listed. |
| LegacyScript.DefaultDelays | sipg.py:28-31 | With the defaults: 5 s after address 1000, 10 s after 2000, and so on. No pause after 999 or 1001. |
| LegacyScript.LegacyPagesVsCore | sipg.py:130 | The script asks for one page more than sipg/core.py:102 exactly when the total is a multiple of 100, including page 1 alone for a total of 0. |
| LegacyScript.LegacyPageCount | sipg.py:130 | `range(1, total // 100 + 2)` has `total // 100 + 1` pages. `LegacyPagesVsCore` compares it with sipg/core.py. |
| LegacyScript.KindOf | sipg.py:138 | What `ipaddress.ip_address` makes of the text: IPv4, IPv6 (a parameter), or a ValueError. |
| LegacyScript.ListEntry | sipg.py:136-141 | One entry of a page: a missing `ip_str` or malformed text raises and ends the page, IPv6 is passed over, IPv4 is counted and printed and its pause taken (or, without `time`, raised). `ListEntryAborts`, `ListEntryShows`, `ListEntryTally` and `ListEntryPlaced` state it. |
| LegacyScript.ScanEntries | sipg.py:136-141 | The entries of one page, up to the first that raises. `ScanEntriesTally`, `ScanEntriesShows` and `ScanEntriesPlaced` state it. |
| LegacyScript.ListPage | sipg.py:131-145 | One page of the listing loop: the request, then a status message, an error message, or the page's entries. `ListPageShows`, `ListPagePages`, `ListPageTally` and `ListPagePlaced` state it. |
| LegacyScript.ListPages | sipg.py:129-145 | The listing loop over pages 1..k. `ListPagesTally`, `ListPagesShows` and `ListPagesPlaced` state it. |
| LegacyScript.ScriptListing | sipg.py:129-145 | The listing loop over pages `1..total//100+1`. `ListingSpec` and `ListingAsWritten` state it. |
| LegacyScript.ScanEntriesStays | sipg.py:136-141 | Once an entry raised, the rest of the page changes nothing. |
| LegacyScript.ListEntries | sipg.py:136-141 | The loop over one page's entries, left at the first that raises, equals the fold `ScanEntries` with `time` imported. |
| LegacyScript.ListIps | sipg.py:129-145 | The listing loop of the corrected script (`time` imported), with `ip_count` and the events in local variables, equals the intended listing `ScriptListing` with `time` imported. |
| LegacyScript.FirstBad | sipg.py:136-141 | The position of the first raising entry lies within the page. |
| LegacyScript.FirstBadIsFirst | sipg.py:136-141 | No entry before `FirstBad` raises, and the entry there does: a missing `ip_str`, or text that is no address. |
| LegacyScript.AppendEvent | sipg.py:140 | Appending one event adds its projection to each projected list. |
| LegacyScript.SleepStep | sipg.py:28-31 | Listing the n-th address extends the pause schedule by exactly the pause due after it. |
| LegacyScript.ListV4Facts | sipg.py:138-140 | Listing an IPv4 address numbers it with the next count and shows it: the numbering stays 1..count without gap, and no page or pause is added. |
| LegacyScript.ListEntryAborts | sipg.py:136-145 | With `time` imported, an entry ends the page iff it raises: no `ip_str`, or text that is no address. |
| LegacyScript.EmitKeepsPages | sipg.py:140 | Printing a line or an error requests no page. |
| LegacyScript.ListEntryPages | sipg.py:136-141 | An entry requests no page. |
| LegacyScript.ListV4Shows | sipg.py:138-140 | An IPv4 entry shows its own address. |
| LegacyScript.ListEntryShows | sipg.py:136-141 | An entry shows its IPv4 address, or nothing. |
| LegacyScript.ListEntryTally | sipg.py:138-141 | Listing an entry keeps the numbering gap-free and the pauses on schedule. |
| LegacyScript.ScanEntriesTally | sipg.py:136-141 | A page's entries keep the numbering gap-free and the pauses on schedule. |
| LegacyScript.ScanEntriesPages | sipg.py:136-141 | A page's entries request no page. |
| LegacyScript.ScanEntriesAborts | sipg.py:136-145 | With `time` imported, a page's scan aborts iff some entry is bad. |
| LegacyScript.ShowsAfterCleanPrefix | sipg.py:136-141 | The step of `ScanEntriesShows` past entries none of which raised. |
| LegacyScript.ScanEntriesShows | sipg.py:136-141 | With `time` imported, a page shows the IPv4 addresses before its first raising entry. |
| LegacyScript.EmitKeepsTally | sipg.py:143-145 | Printing a status or an error keeps the numbering and the pauses. |
| LegacyScript.ListPageTally | sipg.py:131-145 | One page keeps the numbering gap-free and the pauses on schedule. |
| LegacyScript.ListPagePages | sipg.py:131-145 | One page adds exactly its own request. |
| LegacyScript.ListPageShows | sipg.py:131-145 | With `time` imported, one page shows what `PageIps` gives: nothing for an error status, no JSON, missing `matches` or a connection error. |
| LegacyScript.ListPagesTally | sipg.py:129-145 | Pages 1..k are requested in order, with numbering and pauses kept. |
| LegacyScript.ListPagesShows | sipg.py:129-145 | With `time` imported, pages 1..k show their harvest page after page. |
| LegacyScript.PlacedAppend | sipg.py:136-141 | An event that is no pause and no thousandth line keeps every pause right after its line. |
| LegacyScript.PlacedPause | sipg.py:138-141 | The line numbered 1000k followed by a pause of 5k seconds keeps every pause right after its line. |
| LegacyScript.ListEntryPlaced | sipg.py:136-141 | With `time` imported, one entry keeps every pause right after the line numbered 1000k that calls for it. |
| LegacyScript.ScanEntriesPlaced | sipg.py:136-141 | With `time` imported, a page's entries keep the pauses in place. |
| LegacyScript.ListPagePlaced | sipg.py:131-145 | With `time` imported, one page keeps the pauses in place. |
| LegacyScript.ListPagesPlaced | sipg.py:129-145 | With `time` imported, pages 1..k keep every pause right after the line that calls for it. |
| LegacyScript.ListingSpec | sipg.py:129-145 | The intended listing requests every page `1..total//100+1`, whatever errors occur. It shows the IPv4 addresses before each page's first raising entry, numbered 1, 2, ... without gap. Each pause comes right after the line numbered 1000k and lasts 5k seconds, and every such line is followed by its pause. |
| LegacyScript.ListingAsWritten | sipg.py:1-5 | As written, the script still requests every page and numbers its lines without gap, but it never pauses. |
| LegacyScript.WriteEntriesStays | sipg.py:162-165 | After a crash, the rest of the page writes nothing. |
| LegacyScript.WritePagesStays | sipg.py:158-165 | After a crash, the remaining pages write nothing. |
| LegacyScript.WriteOutput | sipg.py:157-167 | The second pass as the script runs it equals `OutputFile`. |
| LegacyScript.WritePage | sipg.py:158-165 | One page of the second pass: the status is not read, a non-JSON body is reported and skipped, a connection error, missing `matches` or bad entry ends the script. `WritePagesSpec` states it. |
| LegacyScript.WriteEntries | sipg.py:162-165 | The entries of one page in the output pass, up to the first that raises. `WriteEntriesSpec` states it. |
| LegacyScript.WritePages | sipg.py:158-165 | The output pass over pages 1..k, up to the first crash. `WritePagesSpec` states it. |
| LegacyScript.OutputFile | sipg.py:157-165 | The second pass over pages `1..total//100+1`. `OutputSpec` states it. |
| LegacyScript.FirstCrash | sipg.py:158-165 | The first crashing page lies in 1..k+1. |
| LegacyScript.FirstCrashIsFirst | sipg.py:158-165 | No page before `FirstCrash` raises, and the page there does: a connection error, a missing `matches`, or a bad entry. |
| LegacyScript.LinesSnoc | sipg.py:165 | Writing one more address appends its URL line. |
| LegacyScript.WriteEntryStep | sipg.py:162-165 | A good entry after a clean prefix appends its URL line when it is IPv4, and nothing otherwise. |
| LegacyScript.WriteAfterCleanPrefix | sipg.py:162-165 | The step of `WriteEntriesSpec` past entries none of which raised. |
| LegacyScript.WriteEntriesSpec | sipg.py:162-165 | A page's entries add the URL lines of its IPv4 addresses before the first bad entry. The pass crashes iff there is a bad entry. |
| LegacyScript.WritePagesSpec | sipg.py:158-165 | Pages 1..k crash iff some page raises. The file holds the lines of every address written before that point. |
| LegacyScript.OutputSpec | sipg.py:157-167 | The second pass dies iff some page 1..total//100+1 makes it raise. The file holds one URL line per IPv4 address written before that. |
| LegacyScript.OutputIgnoresStatus | sipg.py:158-161 | The second pass never reads the status code: two servers that send the same bodies produce the same file. |
| LegacyScript.FileMatchesListing | sipg.py:129-165 | When every page answers 200 with well-formed entries, the file holds exactly the addresses the intended listing printed, in order. The output pass requests every page again; this holds only for a server that answers each page the same way both times. |
| LegacyScript.HarvestsAgree | sipg.py:134-165 | On 200 replies, the two passes collect the same addresses. The output pass requests every page again; this holds only for a server that answers each page the same way both times. |
| LegacyScript.Probe | sipg.py:116-127 | The script dies at the probe iff the request raises or a 200 JSON reply has no `total` (a KeyError the JSONDecodeError handler does not catch). A status other than 200, or a body that is not JSON, leaves the total at 0 and skips the listing. The listing runs iff page 1 answers 200 with a `total`, and then with that total. |
| LegacyScript.FailedProbeStillWrites | sipg.py:116-158 | After a failed probe nothing is listed, yet the output pass still requests page 1 and writes from it. |
| LegacyScript.RunScript | sipg.py:104-165 | The whole script: no key, a traceback at the probe, or the listing and, when an output file was named, that file. `FailedProbeStillWrites` states one of its paths. |
| LegacyScript.ListV4Count | sipg.py:138-141 | Listing an IPv4 address counts it. As written, it raises exactly at a multiple of 1000. |
| LegacyScript.UniformScan | sipg.py:136-141 | A run of IPv4 addresses that stays below the next multiple of 1000 is listed without abort. |
| LegacyScript.AsWrittenStopsAtPause | sipg.py:1-5 | As written, a page of 1001 copies of an IPv4 address stops at the 1000th. |
| LegacyScript.IntendedListsAll | sipg.py:28-31 | With `time` imported, the same page is listed to the end. |
| LegacyScript.ZeroTotalListsPageOne | sipg.py:130 | With a total of 0, the script lists page 1 only. |
| LegacyScript.MissingImportDrops | sipg.py:1-5 | For any IPv4 address: 1001 addresses are due, the script as written lists 1000, and the intended one lists 1001. |
| LegacyScript.MissingImportDropsAddresses | sipg.py:1-5 | The same with 1.1.1.1 on a server that reports no IPv6 address. |

## Left out

- `sipg/cli.py`: only the save step of the search command (sipg/cli.py:118-128) is modelled, as `Grabber.SearchAndSave`. The rest of it (the click commands, banner, examples, progress output, detail printing and exit codes) is not part of this model.
- `install.py`, `setup.py` and the packaging files are not part of this model.
- The HTTP transport is the parameter `fetch`, which stands for `_make_request` (sipg/core.py:52-59). Connection, HTTP-status and JSON errors arrive as its `Err` results, and timeouts or retries are not modelled.
- The server is assumed to answer one page the same way each time it is asked. `search_ips` and `search_with_details` ask for page 1 twice, once as the probe and once in the walk. `sipg.py` asks for page 1 up to three times (the probe, the listing and the output pass, sipg.py:116, 132, 159) and for every other page twice when an output file is named. Its output pass sends these requests back to back and never reads the status (sipg.py:159-161), so a rate-limit reply there gives a different body. `LegacyScript.FileMatchesListing` and `LegacyScript.HarvestsAgree` rest on this one-answer-per-page assumption.
- Generator laziness is not modelled. Each run is consumed to the end, so a consumer that stops early is not modelled either.
- Rich console output, the progress bar and the coloured messages are left out. Real sleeping and clocks are also left out: a sleep is an event in the trace.
- A JSON `null` in a response field is treated like a missing field, which is not what the source does. A null `total` is read as 0, so the model ends with `NoResults`; in Python `None == 0` is false and `None + 99` raises TypeError at sipg/core.py:102, which is re-raised as "Unexpected error" (sipg/core.py:143-144). A null `matches` is read as no matches and a null `data` as ""; in Python both raise TypeError (sipg/core.py:126, 236), again re-raised as "Unexpected error". A null `hostnames`, `domains` or `location` is given its default in the model, where Python keeps the None, and the table would then print "None" for a null city.
- Non-object JSON bodies and a non-string `ip_str` are not modelled.
- The Port and Organization cells of the results table are not modelled. The `ssl`, `http`, `port`, `org` and `timestamp` fields are carried by `Details` and copied by `DetailsOf`, but no contract states them.
- `get_api_info` (sipg/core.py) is not modelled. None of the modelled operations uses it.
- Grabber.IpGrabber.constructor: requires a `Config`; the default `Config()` built when none is given is not modelled.
- Grabber.IpGrabber.SaveResultsToFile: only a failed open is modelled (`canOpen`). A write that fails after the open, such as on a full disk, is also caught by the `except IOError` (sipg/core.py:296-302): it leaves a partial file and reports the error. The model writes either all of `Lines(results)` or nothing.
- Config: the `IOError` raised as `RuntimeError` on save is left out, and so are the directory creation in `_ensure_config_dir` and the default path under the home directory. The file is an object whose state is `Missing`, `Corrupt` or `Stored`. Setting values are JSON scalars only.
- Config: a file whose bytes are not valid UTF-8 is not modelled. `json.load` then raises UnicodeDecodeError, a ValueError that `_load_config` does not catch (sipg/config.py:41), so `Config()` raises; `Disk.Corrupt` stands only for a file that cannot be opened or is not valid JSON, which loads as the empty dictionary.
- Config: a file holding valid JSON that is not an object (`[]`, `null`) is not modelled. Python loads it without error (sipg/config.py:40), and `get_api_key` then raises AttributeError; `Disk` has no such state.
- In `sipg.py`, `load_api_key` and `save_api_key` are left out, and the key is a parameter. The argument parsing and `--help` are left out too; a boolean says whether an output file was named.
- Address.IsIPv4: follows CPython 3.9.5 and later, which reject leading zeros. Earlier versions accepted them.
- LegacyScript.KindOf: recognising IPv6 text is the parameter `isIPv6`. IPv6 address syntax is not modelled.
- LegacyScript.DelaySeconds: requires `results_per_delay > 0`. The script only calls it with 1000, so its ZeroDivisionError is not modelled.
- LegacyScript.RunScript: the probe request is not part of the listing's trace.

## Findings

| source | as written | input that shows it | evidently intended | confidence | as-written member | corrected member |
|---|---|---|---|---|---|---|
| sipg.py:31 | `introduce_delay` calls `time.sleep`, but sipg.py:1-5 never imports `time`. The first due pause raises NameError, and the page handler at sipg.py:144-145 catches it, so the rest of that page is never listed. This repeats after every thousandth address. | A total of 0, and page 1 holding 1001 copies of the entry `1.1.1.1`. The script lists 1000 addresses; 1001 are due. | Pause 5 s, 10 s, ... after each thousandth address and go on listing the page. | not executed | LegacyScript.MissingImportDropsAddresses | LegacyScript.ListingSpec |
