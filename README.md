# TrusGuard blacklist connector — a Dafny model

The connector drives the blacklist of a TrusGuard firewall over its REST
interface. It has two operations, and this project models both.

- **delete_merge** (`delete_merge.py`) first checks that `enddate` and
  `fileiris` are present. It then logs in with a bounded retry loop, which
  gets a token and then logs in with it, sleeping between attempts. Next it
  downloads every artifact CSV and merges their rows in input order, and
  uploads the merged file. After that it searches the blacklist and keeps the
  entries that match two rules:
  - the first eight-digit run in the entry's file name lies between the first
    day of the end date's month and the end date;
  - the entry's description contains the delete text, ignoring case.

  It deletes the indices of those entries once each, highest first, and
  finally calls the bulk-apply endpoint with the merge description. Every
  failure after the parameter checks becomes a `{"success": False}` result.
  The two parameter checks raise instead.
- **upload** (`upload.py`) logs in with the same retry loop, downloads the
  single artifact named by `fileiri` and uploads it. It then calls the bulk
  apply and, on success, logs out with the session token. It never raises:
  every failure becomes a `{"success": False}` result.

## How the model is built

- The firewall is a value, `Firewall`, built from the replies its endpoints
  give.
  - A reply is `Response(status, text, json)` or `TransportError(cause)`.
    `TransportError` stands for an exception raised by `requests`.
  - The token and login endpoints answer per attempt, as `nat -> Reply`.
  - The DELETE endpoint answers per request, in order.
  - Artifact download together with its CSV parse is `fetch: string -> Fetch`.
- Every operation records its outbound requests, in order, as a trace of
  `Call`s. Sleeps are counted. The properties about when the blacklist may
  change are stated on this trace.
- Each loop of the source is an imperative method, proved equal to a
  specification function:
  - the retry loop is `Auth.Authenticate`;
  - the merge loop is `Artifacts.DownloadAndMerge`;
  - the filter loop is `DateFilter.FilterByDateAndDescription`;
  - the delete loop is `Deletion.DeleteIndices`;
  - the two main blocks are `DeleteMergeFlow.DeleteMerge` and
    `UploadFlow.UploadBlacklist`.

  Lemmas about those specification functions give the meaning.
- Python exceptions inside the main blocks are `Err(Error)` values, and the
  error says which `raise` fired. `delete_merge`'s two parameter checks sit
  outside its `try`, so they are a separate `Raised` outcome.

Behaviour of the code worth knowing, which the model keeps as written:

- `loginattempt` is parsed by `int(p) if p and str(p).isdigit() else 5`. A
  string of zeros such as `"0"` therefore gives a budget of 0 attempts, not
  the default 5 (`Auth.ZeroAttemptsIff`).
- The final "Login failed after N attempts" error names `login_json`. When no
  attempt ever received a login response, that local is unbound, and the
  error is Python's unbound-local error instead. This happens, for example,
  when every token request fails. `Auth.AuthExhausted` states exactly when
  each error arises.
- In `delete_merge`, `end_date` is validated only inside the filter. That is
  after the merged file has been uploaded, so an invalid end date still
  leaves the upload on the firewall, though no DELETE or bulk request is sent
  (`DeleteMergeFlow.BadEndDateAfterUpload`).
- The search response is used even when its status is not 200. A body that
  is not a JSON object gives no entries.
- An eight-digit end date with day `00` gives a window whose start, day
  `01`, is after its end. Nothing is selected, and nothing is deleted
  (`DeleteMergeFlow.DayZeroSelectsNothing`).
- In `upload`, the token is never empty after a successful login. The logout
  therefore happens exactly on success (`UploadFlow.LogoutExactlyOnSuccess`).

## Model

| member | source | states |
|---|---|---|
| Strings.ValueZeroIff | delete_merge.py:58 | the integer value of a digit string is 0 exactly when every digit is '0' |
| Strings.LexLeIsNumericOrder | delete_merge.py:155 | for digit strings of equal length, Python's string comparison agrees with numeric order |
| Strings.Lower | delete_merge.py:159 | `lower()` keeps the length and lowers every character on its own |
| Strings.Contains | delete_merge.py:159 | the `in` test on strings holds exactly when the needle occurs at some position |
| Auth.ParseMaxAttempt | delete_merge.py:58 | a missing value, a non-digit text or a non-positive integer gives 5; a digit string gives its value; a positive integer gives itself |
| Auth.ZeroAttemptsIff | delete_merge.py:58 | the budget is 0 exactly for a non-empty string made only of '0' characters |
| Auth.TokenOf | delete_merge.py:63-64 | a token is obtained exactly from a 200 reply whose JSON object has a non-empty `token` field, and it is that field |
| Auth.FirstLogin | delete_merge.py:60-80 | the attempt that returns is the first in the range whose token request gave a token and whose login got 200; none when no attempt in the range did |
| Auth.Authenticate | delete_merge.py:51-103 | the retry loop's result, requests and sleeps are those of the specification AuthSpec |
| Auth.FirstLoginSkips | delete_merge.py:60-80 | attempts that do not log in do not change which attempt logs in first |
| Auth.CallsThroughCount | delete_merge.py:60-62 | n attempts make exactly n token requests |
| Auth.CallsThroughLogins | delete_merge.py:70-73 | every login request directly follows the token request of its own attempt and carries the token that attempt obtained |
| Auth.AuthRequestsOnly | delete_merge.py:51-103 | authentication sends only token and login requests |
| Auth.AuthSucceedsIff | delete_merge.py:79-80 | authentication succeeds exactly when some attempt within the budget logs in |
| Auth.SessionAfter | delete_merge.py:70-80 | a successful login yields the session of the run, and its token is non-empty |
| Auth.AuthStopsAtFirstLogin | delete_merge.py:60-102 | on success at attempt k the loop returns that attempt's token and login JSON, after k token requests and k - 1 sleeps |
| Auth.AuthBounds | delete_merge.py:60-102 | at most the budget of token requests; one sleep between consecutive attempts and none after the last; logins only with the token just obtained |
| Auth.LoginJsonBoundIff | delete_merge.py:74 | `login_json` is bound after n attempts exactly when one of them received a login response |
| Auth.AuthExhausted | delete_merge.py:101-103 | when no attempt logs in, there are budget-many token requests and budget - 1 sleeps; the error names the budget exactly when a login response was received, and is otherwise the unbound local |
| DateFilter.ParseIso | delete_merge.py:133 | an accepted `%Y-%m-%d` text is a real calendar date |
| DateFilter.ParseIsoAccepts | delete_merge.py:133 | every text of a four-digit year, a one- or two-digit month and day joined by '-' that names a real date is accepted, as that date |
| DateFilter.ParseIsoExample | delete_merge.py:133 | "2024-1-20" parses to 20 January 2024 |
| DateFilter.FormatDateExample | delete_merge.py:133 | 20 January 2024 formats as "20240120" |
| DateFilter.NormalizeEndDateExample | delete_merge.py:131-137 | "2024-1-20" normalises to "20240120" |
| DateFilter.Pad | delete_merge.py:133 | a zero-padded field has the requested width and digits, and reads back as the number |
| DateFilter.FormatDateRoundTrip | delete_merge.py:133 | `%Y%m%d` gives eight digits whose year, month and day fields read back as the date |
| DateFilter.NormalizeEndDate | delete_merge.py:131-137 | every accepted end date becomes eight digits |
| DateFilter.NormalizeEndDateForms | delete_merge.py:131-137 | accepted exactly for a valid ISO date when the text has '-', and otherwise for 6 or 8 digits; six digits get the prefix "20", eight pass unchanged, an ISO date keeps its fields; the error says which branch rejected the text |
| DateFilter.WindowIsMonthToDate | delete_merge.py:139-155 | an eight-digit date is in [start, end] exactly when it has the end's year and month and a day from 1 to the end's day |
| DateFilter.StartNotAfterEnd | delete_merge.py:139 | the window's start is not after its end exactly when the end's day is not "00" |
| DateFilter.IsoWindowNonEmpty | delete_merge.py:132-139 | an end date given in ISO form always gives a non-empty window |
| DateFilter.FirstDateRunFrom | delete_merge.py:148 | the position found is the first one from which eight digits follow; none when there is no such position |
| DateFilter.FirstDateRun | delete_merge.py:148-152 | `re.search(r"(\d{8})")` gives the eight digits at the leftmost such position, and nothing exactly when there is none |
| DateFilter.FilterByDateAndDescription | delete_merge.py:127-167 | the filter returns the entries the specification FilterSpec keeps, or its end-date error |
| DateFilter.FilteredSound | delete_merge.py:142-164 | every returned entry is an input entry that passes all three checks |
| DateFilter.FilteredComplete | delete_merge.py:142-164 | every input entry that passes all three checks is returned |
| DateFilter.FilteredNoneKept | delete_merge.py:142-164 | when no entry passes, the result is empty |
| DateFilter.FilteredKeepsOrder | delete_merge.py:142-164 | the result is a subsequence of the input, keeping its order |
| DateFilter.EmptyDescriptionMatchesAll | delete_merge.py:159 | an empty delete text matches every description, so only the date decides |
| DateFilter.DescriptionMatchIgnoresCase | delete_merge.py:159 | descriptions that differ only in case, tested against delete texts that differ only in case, are kept alike |
| DateFilter.KeepIsMonthToDate | delete_merge.py:148-161 | against the window of an eight-digit end date, an entry is kept exactly when its file name's first eight-digit run has the end's year and month and a day from 1 to the end's day, and its description contains the delete text ignoring case |
| Deletion.InsertDescending | delete_merge.py:174 | inserting into a strictly descending sequence keeps it strictly descending, with exactly the old elements and the new one |
| Deletion.NormalizeIndices | delete_merge.py:174 | `sorted(set(...), reverse=True)`: strictly descending, with exactly the elements of the input |
| Deletion.DescendingIsUnique | delete_merge.py:174 | two strictly descending sequences with the same elements are equal, so the normalised order is unique |
| Deletion.NormalizeExample | delete_merge.py:174 | duplicates collapse: [5, 5, 3, 10] gives [10, 5, 3] |
| Deletion.DeleteIndices | delete_merge.py:171-188 | the delete loop's records and requests are those of DeleteRun on the normalised indices |
| Deletion.DeleteRunStopsAtError | delete_merge.py:180-185 | after a DELETE raises, later indices send nothing and change nothing |
| Deletion.DeleteRunOnePerIndex | delete_merge.py:177-187 | when no request raises, there is one DELETE and one record per index, in order, whatever the status codes |
| Deletion.DeleteRunFirstError | delete_merge.py:177-187 | the first raising request ends the loop: the requests are those up to and including it, and the error is its exception |
| Deletion.DeleteRunTargets | delete_merge.py:177-181 | the loop sends only DELETE requests, each for an index it was given |
| Deletion.DeleteRunFailsIff | delete_merge.py:177-187 | the loop fails exactly when one of its requests raises |
| Artifacts.FileRows | delete_merge.py:190-204 | the artifact's rows, or an error naming the artifact and the cause |
| Artifacts.DownloadAndMerge | delete_merge.py:40-45 | the merge loop's rows and downloads are those of MergeRun |
| Artifacts.MergeRunStopsAtError | delete_merge.py:42-44 | after a download fails, later artifacts change nothing |
| Artifacts.MergeRunDownloadsOnly | delete_merge.py:42-43 | merging sends only downloads of the given artifacts |
| Artifacts.MergeIsConcatenation | delete_merge.py:40-45 | when every download succeeds, the result is the files' rows joined in input order, with one download per artifact in order |
| Artifacts.MergeFailsIff | delete_merge.py:40-45 | the merge fails exactly when some download fails |
| Artifacts.MergeExample | delete_merge.py:40-45 | files [[a, b], [c, d]] and [[e, f]] merge to three rows in file order |
| Artifacts.SingleFileRows | upload.py:105-122 | a missing or empty `fileiri` fails before any download; otherwise there is one download, whose rows are the result; a failed read gives the read error without the artifact's name and with the read's cause |
| DeleteMergeFlow.UploadOutcome | delete_merge.py:206-226 | the upload succeeds exactly on status 200; otherwise the error is the response text, or the exception |
| DeleteMergeFlow.BulkOutcome | delete_merge.py:228-239 | the bulk apply succeeds exactly on status 200; otherwise the error is the response text, or the exception |
| DeleteMergeFlow.SearchBodyOf | delete_merge.py:112-115 | the search body is the decoded JSON exactly when the reply has JSON, and otherwise the reply text |
| DeleteMergeFlow.RawResults | delete_merge.py:257 | entries come only from a JSON object's `result` field, and when that field is present they are exactly its entries |
| DeleteMergeFlow.DeleteMergeSpec | delete_merge.py:35-38 | the operation raises exactly when `enddate` or `fileiris` is missing or empty, before any request; a missing end date is reported first; an empty `fileiris` with an end date present raises the missing-file-list error |
| DeleteMergeFlow.DeleteMerge | delete_merge.py:16-291 | the operation's outcome, requests and sleeps are those of DeleteMergeSpec |
| DeleteMergeFlow.MergeUploadReplace | delete_merge.py:245-253 | merge, empty check and upload behave as the MergeAndReplace stage |
| DeleteMergeFlow.SearchFilterDelete | delete_merge.py:255-273 | search, filter, deletes and bulk apply behave as the SearchDeleteApply stage |
| DeleteMergeFlow.SearchDeleteApplyGoes | delete_merge.py:255-287 | after a search response with a valid end date: the search, the DELETEs of the order, then the bulk apply if none raised; success exactly when no DELETE raised and the bulk apply got 200 |
| DeleteMergeFlow.SearchDeleteApplyStops | delete_merge.py:111-137 | a raising search or an invalid end date stops right after the search, with an error |
| DeleteMergeFlow.MergeAndReplaceGoes | delete_merge.py:246-256 | with every download read, a non-empty merge and an accepted upload, the downloads and the upload of the merged rows come first, then the search stage |
| DeleteMergeFlow.MergeAndReplaceStops | delete_merge.py:246-261 | a failed download, an empty merge, a rejected upload, a raising search or a bad end date fails without any DELETE or bulk request; a failed download or an empty merge sends no upload either |
| DeleteMergeFlow.SearchDeleteApplyCalls | delete_merge.py:255-273 | the search stage sends only the search, DELETE requests and the bulk apply |
| DeleteMergeFlow.MergeAndReplaceUploadGate | delete_merge.py:246-253 | the upload is sent only when every artifact was read and the merge is non-empty, and carries exactly the merged rows; an empty merge fails with the no-data error right after the downloads; a failed download fails with that download's error |
| DeleteMergeFlow.UploadIsGated | delete_merge.py:35-253 | any upload in the run comes after both parameters were present, a login within the budget, every artifact read and a non-empty merge, and carries exactly the merged rows |
| DeleteMergeFlow.EmptyMergeFails | delete_merge.py:246-248 | after a login, artifacts that all read but hold no rows end the operation with the no-data error and no upload |
| DeleteMergeFlow.StopsBeforeDeletion | delete_merge.py:241-291 | unless the deletion step is reached, the operation fails and sends no DELETE or bulk request |
| DeleteMergeFlow.DeletionStep | delete_merge.py:241-287 | once the deletion step is reached: login requests, downloads, upload of the merged rows, search, DELETEs, bulk apply; success exactly when no DELETE raised and the bulk apply got 200, with the delete records of the run |
| DeleteMergeFlow.ReplaceStage | delete_merge.py:241-256 | once the deletion step is reached, the run is the login, then the merge and upload, then the search stage with the session's login JSON |
| DeleteMergeFlow.DestructiveRequestsFollowUpload | delete_merge.py:246-273 | a DELETE or bulk request is sent only when the deletion step is reached, and the upload of the merged rows comes before all of them |
| DeleteMergeFlow.DeletesOnlySelected | delete_merge.py:256-266 | every DELETE targets the index of a search entry the filter selected |
| DeleteMergeFlow.DeletesFromOrder | delete_merge.py:266 | every DELETE sent is for an index of the deletion order |
| DeleteMergeFlow.OrderIsSelectedIndices | delete_merge.py:261-266 | the deletion order is strictly descending and holds exactly the indices of the selected search entries |
| DeleteMergeFlow.DeleteOrderIsMatchingIndices | delete_merge.py:261-262 | the indices of the filtered entries, normalised, are exactly the indices of the entries the window and the description select, strictly descending |
| DeleteMergeFlow.SuccessDeletesEverySelected | delete_merge.py:266-287 | on success every selected entry got its DELETE, and the delete results hold one record per ordered index, in order |
| DeleteMergeFlow.SucceedsIff | delete_merge.py:241-291 | success exactly when the deletion step is reached, no DELETE raises and the bulk apply gets 200 |
| DeleteMergeFlow.BadEndDateAfterUpload | delete_merge.py:251-261 | an invalid end date is reported only after the merged rows were uploaded, and no DELETE or bulk request is sent |
| DeleteMergeFlow.DayZeroSelectsNothing | delete_merge.py:139-155 | an end date with day "00" selects no entry, so the deletion order is empty |
| UploadFlow.UploadStep | upload.py:124-146 | the upload succeeds exactly on status 200, and its detail is the code, the prettified text and the JSON; otherwise the error carries that detail, or the exception |
| UploadFlow.BulkStep | upload.py:148-160 | the bulk apply succeeds exactly on status 200, and its detail is built the same way; otherwise the error carries the detail, or the exception |
| UploadFlow.LogoutOf | upload.py:161-173 | the logout code is absent exactly when the request raised, and the response is then the exception text; on a 200 with JSON the response is the JSON, on a 200 without JSON and on any other status the text |
| UploadFlow.UploadBlacklist | upload.py:176-200 | the operation's result, requests and sleeps are those of UploadSpec |
| UploadFlow.AfterLogin | upload.py:177-194 | after a login, a readable artifact and an accepted upload: download, upload, bulk apply, then a logout exactly when the bulk apply got 200 |
| UploadFlow.SucceedsIff | upload.py:176-200 | success exactly when the login, the download, the upload and the bulk apply all succeed |
| UploadFlow.LogoutExactlyOnSuccess | upload.py:186 | a logout is sent exactly on success; it is the last request, carries the session token, and its detail is in the report |
| UploadFlow.NoLogoutOnFailure | upload.py:176-186 | short of an accepted upload, neither a bulk apply nor a logout is sent |
| UploadFlow.BulkFollowsAcceptedUpload | upload.py:179-182 | a bulk apply is sent only with the upload description, after the artifact's rows were uploaded and accepted |
| UploadFlow.UploadIsGated | upload.py:176-182 | a download is sent only after a login and only of the given `fileiri`; an upload only when that artifact was read, with exactly its rows; an unreadable artifact after a login fails with the read error |
| UploadFlow.AfterLoginGate | upload.py:105-122 | after the login, only the named artifact is downloaded and only its rows are uploaded, and an unreadable artifact gives the read error |
| UploadFlow.MissingFileIriFails | upload.py:109-112 | without a `fileiri` the operation fails with no download or upload, and after a login the error is the missing-artifact error |

## Left out

- HTTP transport, TLS settings, timeouts and headers are out of scope. Each
  endpoint's replies are given as data. The token sent in the
  `Authorization` header of later requests is not recorded in the trace,
  except for the logout.
- JSON decoding and content-type sniffing are out of scope. A reply carries
  its already decoded JSON, or none. The token reply is an object of string
  fields or some other JSON. The search reply is an object with an optional
  `result` list, or some other body.
- The CSV download and parse are one oracle per artifact, `fetch`.
- Writing the rows to a temporary CSV file, reading it back for the upload
  and removing it in the `finally` block are not modelled. The upload request
  carries the rows, and its reply is the firewall's `upload` reply. A
  failure to write or read that file is not modelled.
- `time.sleep` is modelled as a counter of sleeps. The 600-second interval
  and the 30-second and 5-second timeouts are constants of the I/O layer.
- `format_response_text` in `upload.py` is the parameter `pretty` of the
  firewall. It is the JSON re-encoding of the response text and is not
  modelled.
- Logging, `print`, the `alert` helper and the `last_result` records are
  left out. `alert` is never called, and `last_result` is written but never
  read.
- The `indices` list that `search_indices` builds is never used by the
  caller, so the model does not build it. Its `item['index']` lookup could
  raise on a search entry without an `index`. That case is not modelled.
- Search entries carry an integer `index`. `int()` of a string index, a
  `result` that is null, and non-string `file_name` or `description` values
  are not modelled. Neither is a search entry without an `index` key. After
  a 200 search with an object body, that entry raises a KeyError at line 118
  of `delete_merge.py`, inside `search_indices`. After any other search, a
  selected entry without an index raises it at line 262.
- `deletedescription` and `mergedescription` are strings in the model. A
  parameter present with a null value makes `params.get` return None. For
  `deletedescription`, `.lower()` at line 159 of `delete_merge.py` then raises
  for the first entry whose date is in the window, and the operation fails.
  That failure is not modelled.
- DateFilter.ParseIso: narrower than `strptime`. It accepts a four-digit
  year and one- or two-digit month and day. It rejects the space-padded
  forms `strptime` also takes.
- DateFilter.Pad: does not model glibc's unpadded `%Y` for years below 1000.
- `\d` and `lower()` are modelled on ASCII. Unicode digits and full Unicode
  case folding are not.
- Auth.ParseMaxAttempt: covers a missing value, a string and an integer.
  Other parameter types are not modelled.
- UploadFlow.LogoutOf: treats every exception of the logout request as
  caught. The source catches only `requests` exceptions there.
- The `expire_enable` field of the bulk payload is a constant and is not
  recorded.
- The connector's dispatch in `connector.py` is not part of this model.
