# Link click tracker: a Dafny model

`link_tracker.py` is a small Flask application. Its `/track` endpoint resolves the visitor's IP address. When that address is not in the click log yet, it appends a record `{ip, timestamp, user_agent}` and saves the log to a JSON file and a CSV export. It always answers with a 302 redirect to a fixed target URL. `/api/stats` reports the log and its length as the number of unique visitors.

This project models the sequential logic of that program:

- `ClientIp` (`client_ip.dfy`) models `get_client_ip`. A non-empty `X-Forwarded-For` header wins, and the result is its first comma-separated entry with whitespace stripped (Python's `split(',')[0].strip()`). Otherwise a non-empty `X-Real-IP` header is used verbatim. Otherwise the peer address is used. The stripping uses the full whitespace set of Python's `str.isspace()`. The predicate `ForwardedClient` describes the forwarded-for result independently: it is the text before the first comma, with only whitespace removed around it. The function meets that description, and `ForwardedClientUnique` proves that nothing else does.
- `Store` (`store.dfy`) models two things. The first is what loading the click log gives. A missing file, an I/O failure (`OSError`) or text that is not valid JSON gives an empty log. Bytes that are not valid text in the file's encoding raise an error that `load_data` does not catch. A valid JSON document that is not an object, or an object without a `clicks` key, makes both endpoints fail when they look up `clicks`. In those cases the request ends in a server error. Documents whose `clicks` entry is present but is not a list of complete records are not represented (see "Left out"). The second is the row construction of `save_data`: a header row, then one row per click in log order, with `N/A` for a record that has no user agent. `ExportRows` is the loop that emits the rows. `ReadRows` reads an export back, and `ExportReadsBack` proves that the export agrees with the log row by row.
- `Tracking` (`tracking.dfy`) models the check-then-append of `track_click` as the function `Record`, and the `Tracker` class holds the persistent state. Its `stored` field is what reading the JSON store gives, and each request loads it afresh. Its `csv` field is the last CSV export written. Its `Track` method resolves the address and loads the log. It appends a record only for a new address, saving in that case, and answers `Redirect(302, TargetUrl)`. When the load raises, it answers a server error and changes nothing. The lemmas show the following. A returning visitor changes nothing. A new visitor adds exactly one record at the end. Distinct addresses stay distinct. Tracking the same address twice gives the log of the first visit. `Replay` runs a sequence of visits on an empty store; the log it ends with has one record per distinct address, taken from that address's first visit. `ApiStats` models `api_stats`; its total is the log length, which is the number of distinct addresses whenever no address repeats. It is a server error when the load raises.

Requests are sequential in this model. After a save, the next load returns the saved log. A store holding invalid JSON loads as empty, so the next new visitor's save replaces its contents with a single record. This follows from `LoadClicks` and `Record`, and it is what the source does.

## Model

| member | source | states |
|---|---|---|
| `ClientIp.ResolveClientIp` | link_tracker.py:45-53 | a truthy (present, non-empty) X-Forwarded-For gives its first comma-separated entry stripped, which contains no comma; otherwise a truthy X-Real-IP is returned unchanged; otherwise the peer address |
| `ClientIp.FirstSegment` | link_tracker.py:49 | `split(',')[0]` is a prefix of the header with no comma, ending at the first comma or at the end |
| `ClientIp.FirstSegmentAt` | link_tracker.py:49 | the position of the first comma alone determines the first segment |
| `ClientIp.TrimLeft` | link_tracker.py:49 | left stripping removes only a run of leading whitespace and stops at a non-space character |
| `ClientIp.TrimRight` | link_tracker.py:49 | right stripping removes only a run of trailing whitespace and stops at a non-space character |
| `ClientIp.Strip` | link_tracker.py:49 | `strip()` leaves a slice of its input surrounded only by whitespace, with no whitespace at either end |
| `ClientIp.StripUnique` | link_tracker.py:49 | any string with space-free ends that is the input less surrounding whitespace is the result of `strip()` |
| `ClientIp.ForwardedClientOf` | link_tracker.py:49 | the forwarded-for result is the stripped text before the first comma, and it contains no comma |
| `ClientIp.ForwardedClientUnique` | link_tracker.py:49 | that description has exactly one solution, the result of `split(',')[0].strip()` |
| `ClientIp.ForwardedChainExample` | link_tracker.py:47-49 | "1.2.3.4, 5.6.7.8" with X-Real-IP "9.9.9.9" resolves to "1.2.3.4" |
| `ClientIp.RealIpExample` | link_tracker.py:50-51 | with only X-Real-IP "9.9.9.9", the result is "9.9.9.9" |
| `ClientIp.EmptyForwardedExample` | link_tracker.py:47-53 | an empty X-Forwarded-For is falsy and falls through to the peer address |
| `Store.LoadClicks` | link_tracker.py:22-30 | a decoded click-log document gives its click list; a missing file, an I/O failure or invalid JSON gives the empty log; an encoding error (not caught), or a document that is not an object or has no `clicks` key, gives None, a server error |
| `Store.RowOf` | link_tracker.py:43 | a click's row is its IP, its timestamp and its user agent, or 'N/A' when the record has none, one value per header column |
| `Store.CsvRows` | link_tracker.py:41-43 | the export is the header plus exactly one row per click; `ExportReadsBack` shows the rows are the clicks in log order |
| `Store.ExportRows` | link_tracker.py:39-43 | the CSV writer's rows are the header followed by one row `[ip, timestamp, user_agent or 'N/A']` per click, in log order |
| `Store.ExportReadsBack` | link_tracker.py:41-43 | reading the export back gives every click of the log in order, with a missing user agent shown as 'N/A' |
| `Store.ExportReadsBackExactly` | link_tracker.py:41-43 | a log whose records all carry a user agent is recovered exactly from its export |
| `Tracking.UserAgentOf` | link_tracker.py:62 | the User-Agent header when present, even if empty, otherwise "Unknown" |
| `Tracking.Ips` | link_tracker.py:69 | one address per record, and an address is among them exactly when some record carries it |
| `Tracking.Record` | link_tracker.py:69-78 | the log only grows, by at most one record, and afterwards holds the visit's address; `RecordReturning` and `RecordNew` together fix the result in both cases |
| `Tracking.RecordReturning` | link_tracker.py:69-82 | a visit from an address already in the log leaves the log unchanged |
| `Tracking.RecordNew` | link_tracker.py:71-79 | a visit from a new address grows the log by one, keeps the earlier records as a prefix, and ends with a record of that address, time and user agent |
| `Tracking.RecordKeepsDistinct` | link_tracker.py:69-78 | if the recorded addresses are pairwise distinct before a visit, they are distinct after it |
| `Tracking.RecordIdempotent` | link_tracker.py:69-78 | the same address tracked twice in a row gives the same log as tracking it once |
| `Tracking.RecordedRequest` | link_tracker.py:61-79 | a request from a new address appends its resolved address, its time, and its User-Agent header, or "Unknown" when the header is absent |
| `Tracking.DistinctCount` | link_tracker.py:181 | in a log without repeated addresses, the number of records equals the number of distinct visitors |
| `Tracking.ReplayDistinct` | link_tracker.py:69-78 | sequential tracking never records an address twice |
| `Tracking.ReplayIpSet` | link_tracker.py:69-78 | sequential tracking records exactly the addresses that visited |
| `Tracking.ReplayFirstVisits` | link_tracker.py:69-78 | each record of a sequential log carries the time and user agent of its address's first visit |
| `Tracking.ReplayUniqueVisitors` | link_tracker.py:61-85 | N sequential visits from K distinct addresses on an empty store leave K distinct records, one per address, each from its first visit |
| `Tracking.RepeatVisitScenario` | link_tracker.py:61-82 | a first visit from 10.0.0.1 with agent curl/8.0 is recorded; a second visit from the same peer changes nothing |
| `Tracking.ApiStats` | link_tracker.py:176-184 | a server error exactly when loading raises; otherwise the payload holds the loaded log, its length as `total_unique_visitors` (the number of distinct addresses when none repeats) and the target URL |
| `Tracking.Tracker.Open` | link_tracker.py:22-30 | the tracker starts from the state of its JSON store, which each request loads afresh |
| `Tracking.Tracker.Save` | link_tracker.py:32-43 | the next load returns the saved log, and the CSV export holds exactly the log's rows |
| `Tracking.Tracker.Track` | link_tracker.py:55-85 | a load that raises gives a server error and changes nothing; otherwise a 302 redirect to the target URL; saves if and only if the resolved address is new; the next load returns the old log with the visit recorded; an unsaved call leaves both files untouched; distinct addresses stay distinct |

## Left out

- HTTP routing, the request object, `redirect` and `jsonify`: headers are a map, the peer address a string, and the response either a redirect (status, location) or a server error.
- Header-name case-insensitivity of the web framework's header lookup: map keys are taken to be the canonical names `X-Forwarded-For`, `X-Real-IP` and `User-Agent`.
- A missing peer address (`remote_addr` being `None`): the peer address is always a string here.
- File I/O and the `json` and `csv` libraries, including CSV quoting and escaping: a load is given as its outcome (`LoadOutcome`), and a save is modelled by the rows it writes. The JSON round trip is taken to return the saved log.
- Documents with a `clicks` key whose value is not a list of complete records: `LoadOutcome` does not represent them, and the model's click list always holds records with an `ip` and a `timestamp`. The source's endpoints treat them differently:
  - `api_stats` (link_tracker.py:179-184) only takes `len` of `data['clicks']`. It answers normally for records missing any field and for a string or object under `clicks`. It fails only when that value has no length, such as a number.
  - In `track_click`, a record without `ip` or one that is not an object fails at link_tracker.py:69. A non-empty string under `clicks` fails there as well. An empty string or an empty object under `clicks` passes :69 and fails at the `append` of :78; a non-empty object fails at :69, where iterating it gives its keys.
  - A record without `timestamp` breaks `/track` only for a new visitor. The JSON file has already been rewritten with the new click (link_tracker.py:35-36) when the CSV loop fails at :43. A returning visitor's request succeeds.
  - A record whose `user_agent` is `null` is written to the CSV as an empty field, not 'N/A'. `Click.userAgent` cannot express a present-but-null agent.
- Other top-level keys of a decoded JSON document, which `save_data` would write back: they are not modelled.
- `datetime.now().isoformat()`: the timestamp is an opaque string parameter.
- Failures while writing the files (disk full, permission denied): these surface as server errors in the source, and the model's saves always succeed.
- The HTML pages of `/stats` and `/` (link_tracker.py:87-174, 186-233), including the timestamp truncation in the template: UI rendering only. The count shown on `/stats` (link_tracker.py:91) is the same log length that `ApiStats` reports.
- `print` logging and `app.run`.
- The read-modify-write race between concurrent `/track` requests, which can record an address twice: the model runs requests one after another.
- `Tracking.Tracker.Open`: the CSV file's contents before the tracker's first save are not modelled (`csv` starts as `None`).
