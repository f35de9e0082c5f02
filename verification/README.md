# Bit Discovery ASM example scripts, modelled in Dafny

The repository is a set of Python scripts that drive the Bit Discovery
(Tenable ASM) inventory API. This project models their deterministic
decision logic as pure Dafny functions and proves what the scripts promise
about it. HTTP responses, cloud CLI output and the outcome of every API
attempt are inputs: a response value, a captured text, or an oracle
`raised(k)(j)` that says whether the j-th try of the k-th call raised. Python
exceptions are modelled as values (`Result.Raise(KeyError)` and so on), so
the error paths are part of every contract.

Modules, one per component of the scripts:

- `Py`, `Text`, `Decimal`, `Json`: the Python semantics the scripts rely on.
  That is `Option`, exceptions as results, `str.lower/upper/strip/split/join`
  on ASCII, `str(n)` and `int(s)`, and decoded JSON scalars with `str(v)` and
  `int(v)`.
- `Retry`: `try_multiple_times` run against a script of attempt outcomes.
- `Api`: the requests the `BitDiscoveryApi` methods build, with structured
  URLs and quoted JSON bodies, plus `get_lastid`.
- `AddByGeo`, `IntervalMerge`, `Backoff`: add-by-geo.py. This covers the
  `-f KEY=VALUE` action, `filter_row`, `sort_input` with `ipaddress`, the
  start-ordered `SortedList`, the interval merge and the polling back-off.
- `Cloud`: `remove_matches` as written and as intended, the `gcloud` and
  `az` listing parsers, the S3 host name, and `get_provider`.
- `ScriptLoops`: the pagination loop (`offset > total` in
  auto-add-assets.py, `offset >= total` in delete-ip.py) and the counting
  loop of retried endpoint calls that exits at the first exhausted retry.
  Each page's request is built from the cursor `get_lastid` read off the
  page before; the server's answer to each request is an oracle.
- `AutoAddAssets`, `DeleteIp`: the two scripts, built from those loops.
- `Pdf`: the table `add_graph_page` assembles, its rendering, and the
  count page's label and `{:,}` number.

Two places where a plain reading of the scripts' purpose and the code
disagree are modelled as the code behaves:

- `sort_input` calls `.ipv4_mapped` on whatever `ipaddress.ip_address(start)`
  returns. For a start below 2^32 that is an `IPv4Address`, which has no such
  attribute, so the row raises `AttributeError`. The touching-ranges example
  (1,10),(11,20) therefore only works written as IPv4-mapped IPv6 integers.
  `AddByGeo.TouchingRangesExample` states both forms.
- Without any `-f` argument, `filter_row` is passed `None` and raises
  `AttributeError` on the first row. It does not accept every row.

## Model

| member | source | states |
|---|---|---|
| Retry.TryMultipleTimes | bitdiscovery/api.py:5-23 | at most max(0, max_tries) calls are made; a value comes back iff some call within the budget returned one; it is the last call's value and every earlier call raised or returned None; on failure exactly max(0, max_tries) calls were made |
| Retry.SuccessAfterFailures | bitdiscovery/api.py:13-21 | k failed calls followed by a success return that success after exactly k + 1 calls |
| Api.EndpointRetry | bitdiscovery/api.py:101-126 | under the retry helper the four endpoints never yield False; the helper gives None iff every allowed try raised, and True right after the first try that did not |
| Api.GetLastId | bitdiscovery/api.py:26-38 | the cursor `get_lastid` reads off a page's `assets`; `Api.GetLastIdSpec` states which id it is |
| Api.LastSearchId | bitdiscovery/api.py:26-38 | the same read done on `searches`, the corrected source cursor; `Api.LastSearchIdSpec` states which id it is |
| Api.GetLastIdSpec | bitdiscovery/api.py:26-38 | '' without an `assets` list or without any asset carrying an id; otherwise `str` of the id of the last asset that has one |
| Api.LastIdFromSpec | bitdiscovery/api.py:33-37 | the loop keeps its start value when no asset has an id and ends on the last id otherwise |
| Api.LastSearchIdSpec | bitdiscovery/api.py:26-38 | the corrected cursor: '' without `searches`, else the id of the last source entry that has one |
| Api.RenderStartsWithBase | bitdiscovery/api.py:52-56 | every request the client builds is sent under `apiurl`, and a URL without query is base plus path |
| Api.FindInventories | bitdiscovery/api.py:52-56 | the request carries the client's key as `Authorization` and is addressed under `apiurl` |
| Api.GetDashboard | bitdiscovery/api.py:58-64 | the request carries the client's key as `Authorization` and is addressed under `apiurl` |
| Api.GetDashboardPath | bitdiscovery/api.py:58-64 | `get_dashboard` posts the hostname filter to `apiurl` + `/dashboard?columns=` + the requested columns |
| Api.SearchInventory | bitdiscovery/api.py:66-76 | the request carries the client's key as `Authorization` and is addressed under `apiurl` |
| Api.SearchForIpAddress | bitdiscovery/api.py:78-88 | the request carries the client's key as `Authorization` and is addressed under `apiurl` |
| Api.SearchForSource | bitdiscovery/api.py:90-99 | the request carries the client's key as `Authorization` and is addressed under `apiurl` |
| Api.AddIp | bitdiscovery/api.py:101-106 | the request carries the client's key as `Authorization` and is addressed under `apiurl` |
| Api.AddSource | bitdiscovery/api.py:108-113 | the request carries the client's key as `Authorization` and is addressed under `apiurl` |
| Api.ArchiveIp | bitdiscovery/api.py:115-120 | the request carries the client's key as `Authorization` and is addressed under `apiurl` |
| Api.DeleteSource | bitdiscovery/api.py:122-126 | the request carries the client's key as `Authorization` and is addressed under `apiurl` |
| Api.AddIpPath | bitdiscovery/api.py:101-106 | `add_ip` posts to `apiurl` + `/source/ip/add` |
| Api.AddSourcePath | bitdiscovery/api.py:108-113 | `add_source` posts to `apiurl` + `/source/add?as_subdomain=true&dont_discover=true` |
| Api.ArchiveIpPath | bitdiscovery/api.py:115-120 | `archive_ip` posts to `apiurl` + `/asset/hide` |
| Api.DeleteSourcePath | bitdiscovery/api.py:122-126 | `delete_source` posts, with no body, to `apiurl` + `/source/` + id + `/delete` |
| Api.DecodeEncode | bitdiscovery/api.py:53 | a query string of plain `key=value` pairs joined by `&` splits back into the same pairs |
| Api.ParamsOfRender | bitdiscovery/api.py:94 | the parameters read back from a rendered URL are the ones it was built with, in order |
| Api.FindInventoriesParams | bitdiscovery/api.py:53 | the URL gives `offset` and `limit` exactly once each, as the decimal text of the arguments |
| Api.SearchInventoryParams | bitdiscovery/api.py:69-72 | the first page asks for `offset=0` and no `after`; later pages send the cursor as `after` and no `offset` |
| Api.SearchForIpAddressParams | bitdiscovery/api.py:82-85 | no `offset` at all; `after` only on later pages, carrying the cursor |
| Api.SearchForSourceParams | bitdiscovery/api.py:93-96 | `offset` is 0 on the first page; later pages carry two `offset` values, 0 and then the cursor; `search` is passed through |
| Api.BodyRoundTrip | bitdiscovery/api.py:79 | a body whose pieces hold no double quote splits back at the quotes into those pieces |
| Api.IpPayloadField | bitdiscovery/api.py:102 | the address `add_ip` posts is the fourth quoted piece of the body |
| Api.KeywordPayloadField | bitdiscovery/api.py:109 | the keyword `add_source` posts is the fourth quoted piece of the body |
| Api.HidePayloadField | bitdiscovery/api.py:116 | the id `archive_ip` hides is the fourth quoted piece of the body |
| Api.IpFilterField | bitdiscovery/api.py:79 | the address the search filter asks for is the twelfth quoted piece |
| Api.IpPayloadQuoteNotEscaped | bitdiscovery/api.py:102 | nothing is escaped: a quote inside the address splits it into two pieces of the body |
| AddByGeo.Column | add-by-geo.py:33-34 | `int(criterion)` is the first position of its name in the index list, between 1 and 5 |
| AddByGeo.NamedName | add-by-geo.py:80 | every member is found under its own name |
| AddByGeo.AssignLookup | add-by-geo.py:81 | a dictionary assignment sets its key and leaves every other key's value alone |
| AddByGeo.AssignKeys | add-by-geo.py:81 | an assignment keeps the key order; a new key goes last |
| AddByGeo.FilterAction | add-by-geo.py:72-81 | the `-f KEY=VALUE` action; its result is stated by `AddByGeo.FilterActionSpec` and `AddByGeo.AddTokensSpec` |
| AddByGeo.AddTokensSpec | add-by-geo.py:76-81 | `ValueError` iff some token does not split into exactly two parts at `=`; otherwise each member holds the value of its last token or keeps its old value, and keys stay distinct |
| AddByGeo.FilterActionSpec | add-by-geo.py:72-81 | the namespace map after the action: an earlier `-f` map is kept and updated, the last token per member wins, other keys are ignored |
| AddByGeo.FilterRow | add-by-geo.py:37-47 | `filter_row`; `AddByGeo.FilterRowWithAny`, `AddByGeo.FilterRowWithoutAny` and `AddByGeo.FilterRowEdges` state when it accepts, rejects or raises |
| AddByGeo.CheckAllSpec | add-by-geo.py:42-47 | the criteria loop accepts iff every criterion equals its column ignoring case; it can only raise `IndexError`, and cannot when every column exists |
| AddByGeo.FilterRowWithAny | add-by-geo.py:39-46 | with ANY present a row is accepted iff some cell equals the ANY value ignoring case; when the columns fit that value alone decides |
| AddByGeo.FilterRowWithoutAny | add-by-geo.py:42-47 | without ANY a row is accepted iff every criterion equals its column ignoring case |
| AddByGeo.FilterRowEdges | add-by-geo.py:37-47 | an empty filter map accepts every row; no map at all raises `AttributeError` |
| AddByGeo.IpAddress | add-by-geo.py:59 | `ip_address(n)` accepts exactly 0 <= n < 2^128 and is IPv4 iff n < 2^32 |
| AddByGeo.MappedIsV6 | add-by-geo.py:59-61 | an integer in `::ffff:0:0/96` is IPv6 and its `ipv4_mapped` is its low 32 bits |
| AddByGeo.UnmappedV6 | add-by-geo.py:59 | any other IPv6 integer has no mapped IPv4 address |
| AddByGeo.SortInput | add-by-geo.py:50-67 | `sort_input` on one CSV row: a row without two integer columns raises `ValueError`, and the range is then handled as `AddByGeo.NormalizeRangeSpec` states |
| AddByGeo.NormalizeRangeSpec | add-by-geo.py:50-67 | every case: an IPv4 start raises `AttributeError`, an out-of-range start `ValueError`, a mapped start with a mapped end reduces both, with an unmapped end raises, any other IPv6 start is kept or dropped under `ipv4_only` |
| AddByGeo.Ipv4OnlyDrops | add-by-geo.py:63-64 | under `ipv4_only` a range is dropped iff its reduced start is at least 2^32; a kept range is the same as without the flag |
| AddByGeo.TouchingRangesExample | add-by-geo.py:53-67 | the ranges `::ffff:0.0.0.1-10` and `::ffff:0.0.0.11-20` reduce to (1,10), (11,20) and merge to (1,20); the plain integers 1 and 10 raise |
| AddByGeo.InsertAt | add-by-geo.py:107 | the insertion point lies after every range that does not start later and before the first that does |
| AddByGeo.InsertSpec | add-by-geo.py:67 | adding keeps the collection ordered by start and holding exactly the ranges added |
| AddByGeo.LoadRanges | add-by-geo.py:107-114 | the CSV loop filling the `SortedList`; `AddByGeo.LoadRangesSpec` states what it holds |
| AddByGeo.LoadRangesSpec | add-by-geo.py:108-114 | a run that raises nothing holds the accepted, kept ranges, ordered by start |
| AddByGeo.GeoRanges | add-by-geo.py:107-127 | the loaded ranges, merged; `AddByGeo.GeoRangesSpec` states separation, size and coverage |
| AddByGeo.GeoRangesSpec | add-by-geo.py:107-127 | the script's ranges are separated, no more than the kept rows, and cover exactly the addresses the kept rows cover |
| IntervalMerge.Merge | add-by-geo.py:117-127 | the interval merge; `IntervalMerge.MergeScan` shows the loop computes it, and `IntervalMerge.MergeSeparated`, `MergeCovers`, `MergeNoLonger` and `MergeIdempotent` state its properties |
| IntervalMerge.MergeScan | add-by-geo.py:117-127 | the loop computes the merge; it is empty iff the input is; on sorted well-formed input it is separated, no longer, and covers the same addresses |
| IntervalMerge.StepCovers | add-by-geo.py:124-127 | folding a range into the last one or appending it covers exactly the union |
| IntervalMerge.ScanInvariant | add-by-geo.py:122-127 | after each iteration the accumulator is separated and its last start is at most every later input start |
| IntervalMerge.ScanCovers | add-by-geo.py:122-127 | after each iteration the accumulator covers exactly the visited ranges |
| IntervalMerge.MergeSeparated | add-by-geo.py:120-127 | the merge of sorted well-formed ranges is sorted, and consecutive ranges are at least two apart |
| IntervalMerge.MergeCovers | add-by-geo.py:120-127 | the merge covers exactly the addresses the input covers |
| IntervalMerge.MergeNoLonger | add-by-geo.py:120-127 | the merge has at most as many ranges as the input |
| IntervalMerge.MergeOfSeparated | add-by-geo.py:120-127 | separated input, re-visiting its first range included, comes out unchanged |
| IntervalMerge.MergeIdempotent | add-by-geo.py:120-127 | merging a merge changes nothing |
| IntervalMerge.MergeJoinsAdjacent | add-by-geo.py:124-125 | (1,10) and (11,20) become (1,20) |
| IntervalMerge.MergeRepeatsInvertedFirst | add-by-geo.py:120-127 | a first range with start more than one past its end is emitted twice |
| Backoff.Delay | add-by-geo.py:149-157 | the length of the k-th sleep; `Backoff.DelayDoubles` shows it is the loop's `min(514, delay << 1)` sequence |
| Backoff.Wait | add-by-geo.py:149-157 | the sleeps of the polling loop; `Backoff.WaitLength`, `Backoff.BackoffSchedule` and `Backoff.BackoffGivesUp` state how many and how long |
| Backoff.DelayDoubles | add-by-geo.py:157 | each delay is `min(514, 2 * previous)`, starting at 1 |
| Backoff.ElapsedClosedForm | add-by-geo.py:149-157 | the waited time is 2^k - 1 while doubling, then grows by 514 per sleep |
| Backoff.ElapsedBelowMax | add-by-geo.py:151 | less than 7200 seconds have been waited exactly before the 23rd sleep |
| Backoff.ElapsedIncreases | add-by-geo.py:156 | the waited time grows strictly with every sleep |
| Backoff.WaitLength | add-by-geo.py:151-152 | at most 23 sleeps happen, and stopping early means the poll said finished |
| Backoff.BackoffSchedule | add-by-geo.py:149-157 | the j-th sleep lasts delay j and follows a pending poll; at most 23 sleeps; fewer only when the next poll said finished; the sleeps add up to the waited time |
| Backoff.BackoffGivesUp | add-by-geo.py:149-157 | the loop sleeps 23 times iff the first 23 polls all say pending, and then it has waited 7705 seconds |
| Cloud.Step | bitdiscovery/cloud.py:12-21 | one iteration of the `remove_matches` loop; `Cloud.StepSpec` states when it raises and what it removes |
| Cloud.StepSpec | bitdiscovery/cloud.py:12-21 | one iteration raises `KeyError` iff its address is tagged 1 or 3, or tagged 2 without a source; a tag 2 removes it from `superset`, the sources and the cloud map; any other tag changes nothing |
| Cloud.SweepSpec | bitdiscovery/cloud.py:10-21 | the loop raises `KeyError` iff some listed address blocks it; otherwise exactly the addresses tagged 2 leave `superset`, the sources and the cloud map |
| Cloud.OldIps | bitdiscovery/cloud.py:23-26 | the old addresses are those of `superset` that the cloud map no longer holds, each valued 1 |
| Cloud.RemoveMatches | bitdiscovery/cloud.py:8-28 | `remove_matches` as written; `Cloud.RemoveMatchesSpec`, `Cloud.RemoveMatchesAllTwo` and `Cloud.TagOneRaises` state its outcome |
| Cloud.RemoveMatchesSpec | bitdiscovery/cloud.py:8-28 | raises `KeyError` iff some cloud address is tagged 1 or 3, or tagged 2 without a source; otherwise new = cloud minus the tag-2 matches with values kept, inventory untouched, old = rest of `superset` outside the new map, disjoint from it |
| Cloud.RemoveMatchesAllTwo | bitdiscovery/cloud.py:8-28 | with every tag 2 and every tagged address a source: new = cloud minus superset, old = superset minus cloud valued 1, the sources lose superset ∩ cloud, the inventory is untouched |
| Cloud.TagOneRaises | bitdiscovery/cloud.py:14-18 | an address tagged 1 and present in every map raises `KeyError` |
| Cloud.SweepIntendedSpec | bitdiscovery/cloud.py:10-21 | the intended loop fails only when a map lacks an address it must delete; otherwise it removes every matched address, from the inventory for tags 1 and 3 and from the sources for tags 2 and 3 |
| Cloud.RemoveMatchesIntendedSpec | bitdiscovery/cloud.py:8-28 | with the inventory and sources holding their tagged addresses, the intended function never raises and every matched address leaves `superset`, the new and the old addresses |
| Cloud.IntendedAgreesOnTagTwo | bitdiscovery/cloud.py:18-21 | when every tag is 2 the loop as written and the intended loop agree |
| Cloud.ListingLinesGlued | bitdiscovery/cloud.py:175 | the stripped non-empty lines of two texts joined at a line boundary are those of each text |
| Cloud.GcpAddress | bitdiscovery/cloud.py:182 | the address column is at most 15 characters with no trailing space |
| Cloud.GcpInstanceIps | bitdiscovery/cloud.py:171-184 | the GCP listing parser; `Cloud.GcpInstanceIpsSpec` states which addresses it finds |
| Cloud.GcpInstanceIpsSpec | bitdiscovery/cloud.py:171-184 | an address is found iff some non-blank line after the header carries it in columns 68-82; every value is 1 |
| Cloud.AzureAddresses | bitdiscovery/cloud.py:208-212 | the `ipAddress` lines' addresses; `Cloud.AzureAddressesSpec` states when it raises and what it returns |
| Cloud.AzureInstanceIps | bitdiscovery/cloud.py:203-212 | the Azure listing parser: the addresses `Cloud.AzureAddresses` finds in the stripped non-empty lines, each valued 1 |
| Cloud.AzureAddressesSpec | bitdiscovery/cloud.py:208-212 | `IndexError` iff some `ipAddress` line has fewer than two words; otherwise the second words of those lines, in order |
| Cloud.S3Host | bitdiscovery/cloud.py:131-140 | the S3 host of a bucket; `Cloud.S3HostText` and `Cloud.S3HostParts` state it |
| Cloud.S3HostText | bitdiscovery/cloud.py:131-140 | for any bucket name: `KeyError` iff there is no `LocationConstraint`, otherwise `bucket.s3.<str(location)>.amazonaws.com` |
| Cloud.S3HostParts | bitdiscovery/cloud.py:131-140 | for dot-free bucket and region names, the bucket and region come back out of the host name; a null location renders as `None` |
| Cloud.GetProvider | bitdiscovery/cloud.py:217-229 | a provider comes back iff the argument is one of the three names, and it is the one that name selects |
| Cloud.GetProviderArg | bitdiscovery/cloud.py:224-229 | each provider is selected by its own argument |
| ScriptLoops.Collect | auto-add-assets.py:56-74 | the pagination loop from a given state; `ScriptLoops.PaginateAnswers` and `ScriptLoops.PaginateCount` state what it collects |
| ScriptLoops.Paginate | delete-ip.py:93-113 | the pagination loop from its first request; `ScriptLoops.PaginateAnswers`, `ScriptLoops.PaginateCount` and `ScriptLoops.PaginateDiverges` state its outcome |
| ScriptLoops.PageCount | auto-add-assets.py:70-74 | the number of pages is the least n >= 1 whose offset meets the stop rule |
| ScriptLoops.PaginateCount | auto-add-assets.py:56-74 | with a positive limit and searches that answer, the loop collects exactly that many pages, in order, each request carrying the cursor read off the page before |
| ScriptLoops.PaginateAnswers | delete-ip.py:93-113 | whatever the limit, rule and fuel, the pages collected are the answers to the loop's requests, in order, and there is at least one |
| ScriptLoops.StuckCursor | delete-ip.py:107 | a cursor read that finds nothing on any page leaves every request the first one |
| ScriptLoops.RepeatsFirstPage | delete-ip.py:95-113 | with such a cursor every collected page answers the first request, so a server answering alike hands back the first page every time |
| ScriptLoops.SourceRequestsRepeat | delete-ip.py:95-107 | source pages carry no `assets`, so `get_lastid` keeps the cursor '' and every source request is `search_for_source(LIMIT, '', VALUE)` |
| ScriptLoops.SourceCursorAdvances | bitdiscovery/api.py:90-99 | with the cursor read off `searches`, the next request carries the page's last source id as its second `offset` |
| ScriptLoops.PaginateDiverges | auto-add-assets.py:58-74 | with a limit of zero or less and a first offset that misses the rule, the loop never ends |
| ScriptLoops.ProgressDividesByZero | delete-ip.py:61-64 | a total of zero with a first offset below zero raises `ZeroDivisionError` in the progress line |
| ScriptLoops.RulesDiffer | delete-ip.py:60-67 | `>` and `>=` fetch the same number of pages except when an offset lands exactly on the total, where `>` fetches one more |
| ScriptLoops.SucceedsSpec | auto-add-assets.py:118-125 | a retried endpoint call comes back iff not all five tries raised |
| ScriptLoops.CallEach | delete-ip.py:117-131 | the counting loop over the selected items; `ScriptLoops.CallEachSpec` states its outcome |
| ScriptLoops.CallEachSpec | delete-ip.py:117-131 | the loop finishes iff every selected item's call came back, having counted the selected items; otherwise it exits at the first failing one, having counted those before it |
| ScriptLoops.CallAllSpec | auto-add-assets.py:116-128 | with every item calling: all counted iff all calls came back; otherwise an exit at the first failure with the count of items before it |
| AutoAddAssets.MergeTwoDicts | auto-add-assets.py:26-29 | the union of the keys; `y` wins on shared keys, `x` elsewhere |
| AutoAddAssets.MergeEmpty | auto-add-assets.py:26-29 | merging with an empty map on either side changes nothing |
| AutoAddAssets.Candidate | auto-add-assets.py:80-86 | only `iprange` searches contribute; a missing or non-string keyword raises; an `iprange` search with a string keyword gives the lower-cased keyword exactly when it holds no `-` or `/`, and nothing otherwise |
| AutoAddAssets.CandidatesSpec | auto-add-assets.py:78-86 | the extraction fails iff some search fails; otherwise it keeps exactly the addresses the searches give |
| AutoAddAssets.SourceIps | auto-add-assets.py:77-86 | the address dictionary built from the source pages; `AutoAddAssets.SourceIpsSpec` states its keys, values and exceptions |
| AutoAddAssets.SourceIpsSpec | auto-add-assets.py:77-86 | raises iff some `iprange` search lacks a string keyword; otherwise the source addresses are exactly the lower-cased `iprange` keywords free of `-` and `/`, each tagged 2 |
| AutoAddAssets.CandidatesAppend | auto-add-assets.py:78-86 | the addresses of two runs of searches are the union of each run's, and the first exception wins |
| AutoAddAssets.SourceIpsFirstPageOnly | auto-add-assets.py:56-86 | as written, every source request repeats the first, so against a server answering alike the source addresses are the first page's alone |
| AutoAddAssets.Superset | auto-add-assets.py:89-93 | the union of both maps, tagged 3 exactly where an address is in both |
| AutoAddAssets.ReconcileFromSources | auto-add-assets.py:89-112 | with `inventoryips` empty, `remove_matches` never raises; new = cloud minus the sources, old = sources outside the cloud, the inventory stays empty |
| AutoAddAssets.AddNew | auto-add-assets.py:116-130 | the loop adding the new addresses; `AutoAddAssets.AddNewSpec` states its outcome |
| AutoAddAssets.AddNewSpec | auto-add-assets.py:116-130 | `addednum` is the number of new addresses iff every add comes back; otherwise the script exits at the first address whose five tries raised, every earlier one having come back, with the count of those |
| AutoAddAssets.BucketsAsWritten | auto-add-assets.py:133-153 | the bucket loop as written, testing `result`; `AutoAddAssets.BucketsAsWrittenCountsAll` and `AutoAddAssets.FailedBucketCounted` state its outcome |
| AutoAddAssets.Buckets | auto-add-assets.py:133-153 | the bucket loop testing `success`; `AutoAddAssets.BucketsSpec` states its outcome |
| AutoAddAssets.BucketsAsWrittenCountsAll | auto-add-assets.py:138-153 | with `result` set by the earlier loops, every bucket is counted whatever `add_source` did |
| AutoAddAssets.FailedBucketCounted | auto-add-assets.py:143-153 | one bucket whose tries all raise is still counted and the script does not exit |
| AutoAddAssets.BucketsSpec | auto-add-assets.py:133-153 | the loop testing `success` counts every bucket iff every `add_source` comes back, and otherwise exits at the first failure |
| AutoAddAssets.FailedBucketExits | auto-add-assets.py:143-150 | the corrected loop exits where the one as written counts on |
| DeleteIp.AssetMatches | delete-ip.py:73 | an asset is archived when `str` of its `bd.ip_address` is VALUE; `DeleteIp.DeletedCount` counts these |
| DeleteIp.SourceMatches | delete-ip.py:119 | a source is deleted when its lower-cased keyword is VALUE; `DeleteIp.UpperValueMatchesNoSource` and `DeleteIp.DeletedCount` state it |
| DeleteIp.DeleteIpRun | delete-ip.py:40-133 | the whole script; `DeleteIp.DeletedCount`, `DeleteIp.SourceTypeSkipsAssets` and `DeleteIp.BadIdExits` state its outcome |
| DeleteIp.UpperValueMatchesNoSource | delete-ip.py:117-119 | a VALUE with an upper-case letter deletes no source |
| DeleteIp.CallOkSpec | delete-ip.py:74-81 | an archive or delete call comes back iff its argument does not raise and not all five tries raised |
| DeleteIp.SourceTypeSkipsAssets | delete-ip.py:41-88 | for TYPE `source` the outcome is the source pass's alone |
| DeleteIp.PassExitsOnFailure | delete-ip.py:126-128 | a call that fails for a matching item ends the pass at `exit(1)` |
| DeleteIp.SourceStageCount | delete-ip.py:90-131 | with the source pages collected and every delete coming back, the source half adds the matching sources to the count |
| DeleteIp.DeletedCount | delete-ip.py:40-133 | with every call coming back, `deletednum` is the matching assets (TYPE `ip`) plus the matching sources |
| DeleteIp.SourceCursorAsWritten | delete-ip.py:95-131 | two sources on two pages: the second request repeats the first, so source 7 is deleted twice, source 8 never, and `deletednum` reads 2 |
| DeleteIp.SourceCursorCorrected | delete-ip.py:95-131 | with the cursor read off `searches` the same server gives both pages and each source is deleted once |
| DeleteIp.BadIdExits | delete-ip.py:70-81 | a matching asset without a string id makes every archive try raise, so the script exits |
| Pdf.Step | bitdiscovery/pdf.py:128-139 | one iteration of the row loop; `Pdf.FoldRowsRows`, `Pdf.FoldRowsFound`, `Pdf.FoldRowsMissing` and `Pdf.FoldRowsEmpty` state what the loop ends with |
| Pdf.FoldRowsRows | bitdiscovery/pdf.py:128-139 | the loop appends exactly the rows named neither `__missing__` nor empty, in input order, with their values |
| Pdf.FoldRowsFound | bitdiscovery/pdf.py:128-136 | `foundmissing` ends set iff some row is named `__missing__` or is empty-named |
| Pdf.FoldRowsMissing | bitdiscovery/pdf.py:129-131 | `missingrow` ends as the last `__missing__` row |
| Pdf.FoldRowsEmpty | bitdiscovery/pdf.py:133-136 | `empty` ends as the value of the last empty-name row, or 0 |
| Pdf.Assemble | bitdiscovery/pdf.py:122-146 | the table rows `add_graph_page` assembles; `Pdf.AssembleSpec` states them |
| Pdf.AssembleSpec | bitdiscovery/pdf.py:122-146 | the table is the ordinary rows in order, then one `__missing__` row when one came, valued the last `__missing__` value plus the last empty-name value |
| Pdf.EmptyWithoutMissingRaises | bitdiscovery/pdf.py:142-143 | an empty-name row with no `__missing__` row raises `KeyError` |
| Pdf.LastBranchUnreachable | bitdiscovery/pdf.py:145-146 | `empty` is non-zero only with `foundmissing` set, so the last branch never adds a row |
| Pdf.Truncate | bitdiscovery/pdf.py:151 | names up to 75 characters are unchanged; longer ones become their first 75 characters plus `...` |
| Pdf.TruncateIdempotent | bitdiscovery/pdf.py:151 | truncating a truncated name changes nothing |
| Pdf.Stripe | bitdiscovery/pdf.py:149-157 | one rendered row per table row, with the truncated name and the count; `Pdf.StripeShading` and `Pdf.StripeCounts` state the shading and the count cells |
| Pdf.StripeShading | bitdiscovery/pdf.py:149-157 | the first row is plain and shading alternates row by row |
| Pdf.StripeCounts | bitdiscovery/pdf.py:155-157 | every count cell parses back to its row's value |
| Pdf.AssembledNonEmpty | bitdiscovery/pdf.py:122-146 | non-empty data that assembles gives at least one row |
| Pdf.GraphTable | bitdiscovery/pdf.py:122-162 | the table of `add_graph_page`; `Pdf.GraphTableSpec` states when there is no data, when it raises and what rows it shows |
| Pdf.GraphTableSpec | bitdiscovery/pdf.py:122-162 | only empty data gives "No data found."; a row-assembly exception propagates; once the rows assemble, a total of zero raises `ZeroDivisionError` in the percentage, and any other total gives one striped row per assembled row |
| Pdf.Capitalize | bitdiscovery/pdf.py:73 | the first character upper-cased, the rest lower-cased |
| Pdf.CapitalizeIdempotent | bitdiscovery/pdf.py:73 | capitalizing twice is capitalizing once |
| Pdf.CapitalizeKeepsLetters | bitdiscovery/pdf.py:73 | capitalizing changes only letter case |
| Pdf.CountLabel | bitdiscovery/pdf.py:84-87 | the label spells the name with its first letter upper-cased, the same letters ignoring case, the rest lower-cased, plus one `s` unless the count is 1 |
| Pdf.CountLabelPlural | bitdiscovery/pdf.py:77-87 | the plural label is the singular one plus `s`, and the heading `Total {Name}s` carries the plural label |
| Pdf.FormatCount | bitdiscovery/pdf.py:81 | `{:,}` of a count; `Pdf.GroupRemoveCommas`, `Pdf.GroupSizes` and `Pdf.FormatCountDigits` state the digits and the grouping |
| Pdf.GroupRemoveCommas | bitdiscovery/pdf.py:81 | removing the commas gives the digits back |
| Pdf.GroupSizes | bitdiscovery/pdf.py:81 | every comma-separated group holds three digits except the first, which holds one to three |
| Pdf.FormatCountDigits | bitdiscovery/pdf.py:81 | `{:,}` of a count without its commas is `str(count)` |
| Pdf.TitleText | bitdiscovery/pdf.py:57 | the title page shows a prefix of the title of at most 20 characters |

## Left out

- HTTP traffic, response JSON decoding and the cloud CLIs (`aws`, `gcloud`, `az`): responses and captured listings are inputs, and attempt outcomes are oracles.
- `AWSProvider.get_instance_ips`, `find_s3_buckets` and every `get_ip_ranges`: they only copy CLI or HTTP JSON into a dictionary, and the scripts never use the prefixes they read.
- Reading the location CSV, writing the PDF, images, `time.sleep` and all printing.
- pdf-report.py, FPDF/HTML layout, the count page's description text, and argparse wiring apart from the `filterValue` action.
- Floating point: the percent column of the report table and the progress percentages of delete-ip.py. The progress line is modelled only for its division by the total.
- Text rendering of addresses by `ipaddress` (the `start-end` string the merged ranges are registered under).
- Dictionary key order where the contents do not depend on it. `remove_matches` takes the snapshot order of the cloud keys as an input.
- `Text` models `lower`, `upper`, `strip`, `split` and `capitalize` on ASCII only, and `Decimal` models `int(s)` without underscores or non-ASCII digits.
- ScriptLoops.Collect: the pagination loop runs on fuel; `Unfinished` stands for a loop still running when the fuel is spent, which is how non-termination is stated. The server's answer to each request is an oracle of the iteration and the request, so what a repeated request returns is not fixed unless a lemma assumes it.
- The retried `find_inventories` call at script start and the `actualInventory` lookup: a failure there is an `exit(1)` before any modelled step.
- The `assert` checks in add-by-geo.py's `main` on the API key and the inventory response.

## Findings

| source | as written | input that shows it | evidently intended | confidence | as-written member | corrected member |
|---|---|---|---|---|---|---|
| bitdiscovery/cloud.py:14-18 | line 15 deletes `superset[ip]` for tags 1 and 3, then line 18 reads `superset[ip]` again and raises `KeyError` | `superset = {"a": 1}`, `bit_discovery_ips = {"a": 1}`, `bit_discovery_sources = {}`, `cloud_ips = {"a": 1}` | read the tag once: 1 removes the address from the inventory addresses, 2 from the sources, 3 from both, and all three from `superset` and the cloud map | not executed | Cloud.TagOneRaises | Cloud.RemoveMatchesIntendedSpec |
| auto-add-assets.py:143-150 | the bucket loop stores the retry result in `success` but tests `result`, which the earlier loops left non-`None` | one bucket whose five `add_source` tries all raise: it is counted and the script goes on | test `success`, as the address loop tests its own result, and exit when it is `None` | not executed | AutoAddAssets.FailedBucketCounted | AutoAddAssets.BucketsSpec |
| bitdiscovery/api.py:34 | `get_lastid` reads only `assets`, but both scripts feed it the source pages (delete-ip.py:107, auto-add-assets.py:69), which carry `searches` and, as far as the scripts show, no `assets`; the cursor stays '' and every later source request repeats the first | LIMIT 1, VALUE `x`, a first page with source 7 and total 2, a second page with source 8: delete-ip.py deletes source 7 twice and never source 8 | read the cursor off the source entries, so each request continues after the page before | not executed | DeleteIp.SourceCursorAsWritten | DeleteIp.SourceCursorCorrected |

`DeleteIp.DeleteIpRun` takes the source cursor read as a parameter. `GetLastId` gives the script as written and `LastSearchId` the corrected read. `DeleteIp.DeletedCount` holds for both. `ScriptLoops.SourceCursorAdvances` states in general that the corrected read moves each request past the page before. In auto-add-assets.py the repeated request loses the later pages' addresses rather than duplicating them (`AutoAddAssets.SourceIpsFirstPageOnly`).

auto-add-assets.py never builds a tag of 1 or 3, because its `inventoryips` stays empty. There the function as written and the intended one agree (`Cloud.IntendedAgreesOnTagTwo`), and `AutoAddAssets.ReconcileFromSources` is stated about the function as written.
