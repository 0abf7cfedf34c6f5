# Parental watch monitor: activation, devices and watch events in Dafny

This project models the backend of a parental monitoring service built on
Laravel, plus the history viewer of its browser extension. The model covers:

- **Activation codes** (`ActivationCode` and `ActivationCodeController`). A
  parent generates a 12-character code with a lifetime of 1 to 168 hours. They
  can list their codes with the `is_valid`, `is_expired` and `is_used` flags,
  and delete an unused code.
- **Devices** (`DeviceController`). The browser extension redeems a code for a
  device, identified by a client-generated uuid, and receives a token. An
  existing device with that uuid is reactivated in place and keeps its owner;
  otherwise a new device is created for the code's owner. The code is then
  bound to the device and marked used. Devices send heartbeats. The owner
  lists devices with event counts and deactivates them.
- **Watch events** (`WatchEventController`). An active device pushes one event
  or a batch of 1 to 100 events. An unknown uuid is refused with 404 and an
  inactive device with 403. The owner queries the history through filters,
  newest first, one page at a time.
- **The extension's viewer** (`extension/viewer.js`). It drops repeat views of
  the same video within 5 seconds of the last kept view, and filters by a
  case-insensitive search term.

The three tables live in a `Tables.Database` object. Each table is a sequence
of rows in id order, and each has an id counter. `Database.Valid()` holds the
integrity constraints the controllers maintain together:

- codes are unique;
- a code is used exactly when it is bound to a device;
- every bound device and every event's device exists;
- device uuids are unique;
- ids increase.

Every state-changing endpoint is a method that keeps `Valid()`. It states its
new state completely, and states its error answers (422 validation, 404, 400,
403) with the tables left unchanged. The list endpoints are functions. The
code and device lists are proved to be a permutation of exactly the caller's
rows, in the source's order. The event history is proved the same way for
its full result list (`EventIngestor.Results`), and each response
(`EventIngestor.Index`) is one page of that list.

Inputs the code takes from its environment are parameters:

- the clock is `now` (seconds; milliseconds in the viewer);
- `Str::random` is a finite sequence of draws;
- the token secret is a string;
- the framework's `url` and `date` rules are `EventIngestor.Rules`;
- `new Date(...).getTime()` is a function to `Viewer.Millis`, which includes NaN.

A request field is `Common.Field`: absent, null or given. The difference
between an absent key and `null` matters to the Findings below.

Files:

| file | module | contents |
|---|---|---|
| common.dfy | Common | options, request fields, failures with HTTP status, ASCII case, substring |
| seqs.dfy | Seqs | `first()`, `filter`, `orderBy desc`, `paginate` as sequence functions |
| activation_code.dfy | ActivationCodes | the code record and its three flags |
| tables.dfy | Tables | device and event rows, `Database`, integrity lemmas |
| code_registry.dfy | CodeRegistry | `ActivationCodeController` |
| device_registry.dfy | DeviceRegistry | `DeviceController` |
| event_ingestor.dfy | EventIngestor | `WatchEventController` |
| viewer.dfy | Viewer | de-duplication and search of `extension/viewer.js` |
| scenarios.dfy | Scenarios | request sequences across endpoints |

Points where the code's behaviour is easy to misread:

- The 400 message for an unused code whose `expires_at` equals now is "already
  used". `isValid` and `isExpired` both compare strictly.
- `store` reads seven optional keys, and the new-device branch of `activate`
  three, without `?? null`; a request that leaves such a key out ends in 500.
  Both halves are in the model (Findings): the as-written rows
  (`EventFromInputAsWritten`, `NewDeviceAsWritten`) fail on such a request,
  and the endpoints (`Store`, `Activate`) are modelled with the corrected
  rows, which read the keys as `?? null` the way `storeBatch` (lines 108-120
  of WatchEventController.php) and `name` in `activate` already do.
- The code wraps nothing in a transaction. Validation of a whole batch runs
  before its first insert, so a request the rules refuse leaves the tables
  unchanged either way. An insert the database itself refuses after
  validation (column limits, see `EventIngestor.Store` under "## Left out")
  would leave the earlier rows of a batch in place; the model does not
  capture that case.

## Model

| member | source | states |
|---|---|---|
| ActivationCodes.FlagsExclusive | backend/app/Models/ActivationCode.php:45-64 | a valid code is neither used nor expired; an expired code is never valid whatever `used_at` says; a used code is never valid |
| ActivationCodes.ValidIffUnusedAndUnexpired | backend/app/Models/ActivationCode.php:45-56 | away from the expiry instant, valid exactly when unused and not expired |
| ActivationCodes.ExpiryInstant | backend/app/Models/ActivationCode.php:45-56 | when `expires_at` equals now, an unused code is neither valid nor expired (both comparisons are strict) |
| CodeRegistry.TtlHours | backend/app/Http/Controllers/Api/ActivationCodeController.php:17-21 | the lifetime that passes validation lies in 1..168 hours, and is 24 when the key is absent or null |
| CodeRegistry.ValidTtl | backend/app/Http/Controllers/Api/ActivationCodeController.php:17-19 | `expires_in_hours` passes exactly when it is missing, null, or an integer in 1..168 |
| CodeRegistry.PickUnusedCode | backend/app/Http/Controllers/Api/ActivationCodeController.php:23-26 | the retry loop ends at the first upper-cased draw that is not a stored code; every earlier draw collided; the code is 12 characters with no lower-case letter |
| CodeRegistry.Generate | backend/app/Http/Controllers/Api/ActivationCodeController.php:15-32 | a lifetime outside 1..168 gives 422 and stores nothing; otherwise exactly one row is appended with the next id and the id counter advances by one; the row is owned by the caller, unbound, unused, expiring now + hours·3600, differing from every existing code, valid now; the tables stay well formed |
| CodeRegistry.BoundDevice | backend/app/Http/Controllers/Api/ActivationCodeController.php:47-56 | the eagerly loaded `device` is the row with the code's `device_id`, and is absent only when the id is null or has no row |
| CodeRegistry.Index | backend/app/Http/Controllers/Api/ActivationCodeController.php:43-62 | the listed codes are a permutation of the caller's codes: every listed code is the caller's and every code of the caller is listed; newest `created_at` first; each flag equals the model predicate |
| CodeRegistry.OwnedCodesMembership | backend/app/Http/Controllers/Api/ActivationCodeController.php:45-46 | any permutation of the caller's filtered codes holds exactly the rows of the table owned by the caller |
| CodeRegistry.Destroy | backend/app/Http/Controllers/Api/ActivationCodeController.php:72-82 | another user's or a missing code is 404; a used code is 400 and the table is unchanged; otherwise exactly that row is removed, expired or not; no used code is ever removed |
| CodeRegistry.RemoveAtKeepsOthers | backend/app/Http/Controllers/Api/ActivationCodeController.php:82 | deleting a row removes exactly the row with that id and keeps every other row |
| CodeRegistry.RemoveAtWellFormed | backend/app/Http/Controllers/Api/ActivationCodeController.php:82 | deleting a row keeps the codes table well formed |
| DeviceRegistry.RejectionMessageCases | backend/app/Http/Controllers/Api/DeviceController.php:35-41 | the 400 message names expiry exactly when `expires_at` is before now; an unused code at its expiry instant gets "already used" |
| DeviceRegistry.ValidActivationRequest | backend/app/Http/Controllers/Api/DeviceController.php:18-25 | a request passes only with a 12-character code, a non-empty uuid of at most 255 characters, and name and browser fields that are missing, null or at most 255 characters |
| DeviceRegistry.Reactivated | backend/app/Http/Controllers/Api/DeviceController.php:48-52 | the reactivated row is active, activated and seen now, and keeps its id, owner, uuid, name, browser fields and creation time |
| DeviceRegistry.NewDevice | backend/app/Http/Controllers/Api/DeviceController.php:55-65 | the corrected new row: the next id, the code's owner, the requested uuid, the given name or "Browser Extension", each browser field as given or null when missing, active, activated, seen and created now |
| DeviceRegistry.NewDeviceAsWritten | backend/app/Http/Controllers/Api/DeviceController.php:55-65 | as written the row either ends in 500 or is the corrected row |
| DeviceRegistry.NewDeviceAsWrittenFailsOnOmittedField | backend/app/Http/Controllers/Api/DeviceController.php:55-65 | creating a device as written fails exactly when `browser_type`, `browser_version` or `os` is left out, and otherwise builds the corrected row |
| DeviceRegistry.OmittedOsCounterexample | backend/app/Http/Controllers/Api/DeviceController.php:55-65 | a request the rules admit, with `os` left out, gets 500 as written; the corrected row stores `os` as null |
| DeviceRegistry.RedeemWellFormed | backend/app/Http/Controllers/Api/DeviceController.php:69-72 | binding an unused code to an existing device keeps the codes table well formed and changes no used code |
| DeviceRegistry.TokenFor | backend/app/Http/Controllers/Api/DeviceController.php:75 | the token belongs to the device's owner and is named `device-token-` followed by the decimal digits of the device id |
| DeviceRegistry.TokenNamesDistinct | backend/app/Http/Controllers/Api/DeviceController.php:75 | the digits of a token name read back as the device id, so two devices never get tokens with the same name |
| DeviceRegistry.Activate | backend/app/Http/Controllers/Api/DeviceController.php:16-82 | invalid input 422, unknown code 404, invalid code 400 with the expired or used message, each with nothing changed; otherwise the device with that uuid is reactivated in place, keeping owner, name and browser fields, and no device is added; or one new active device is appended, owned by the code's owner and named as given or "Browser Extension"; the code row is bound to the device and used now; the token is for the device's owner, named `device-token-<id>`; no event changes; the tables stay well formed |
| DeviceRegistry.UpsertDevice | backend/app/Http/Controllers/Api/DeviceController.php:43-66 | the device with the requested uuid is rewritten in place, reactivated and seen now, with no device added; otherwise exactly one new device is appended with the next id, owned by the given user; codes and events are unchanged and the tables stay well formed |
| DeviceRegistry.Heartbeat | backend/app/Http/Controllers/Api/DeviceController.php:87-109 | unknown uuid 404 with nothing changed; otherwise only that device's `last_seen_at` becomes now, active or not |
| DeviceRegistry.Index | backend/app/Http/Controllers/Api/DeviceController.php:114-125 | a permutation of exactly the caller's devices, newest `created_at` first, each with the number of events recorded by it |
| DeviceRegistry.OwnedDevicesMembership | backend/app/Http/Controllers/Api/DeviceController.php:116-117 | any permutation of the caller's filtered devices holds exactly the caller's devices |
| DeviceRegistry.Destroy | backend/app/Http/Controllers/Api/DeviceController.php:130-141 | another user's or a missing device is 404 with nothing changed; otherwise only that row's `is_active` becomes false |
| Tables.DeviceUpdateWellFormed | backend/app/Http/Controllers/Api/DeviceController.php:46-52 | rewriting one device row in place, keeping id, owner and uuid, keeps all three tables well formed and every foreign key satisfied |
| Tables.DeviceAppendWellFormed | backend/app/Http/Controllers/Api/DeviceController.php:53-65 | appending a device with the next id and an unseen uuid keeps all three tables well formed |
| Tables.EventAppendWellFormed | backend/app/Http/Controllers/Api/WatchEventController.php:47-59 | appending an event with the next id on an existing device keeps all three tables well formed |
| EventIngestor.ValidEvent | backend/app/Http/Controllers/Api/WatchEventController.php:17-29 | an event passes only with a non-empty video id of at most 255 characters, a non-empty url of at most 500 characters the `url` rule accepts, texts of at most 255, non-negative durations, a parsable `watched_at` and a url thumbnail whenever given |
| EventIngestor.EventFromInput | backend/app/Http/Controllers/Api/WatchEventController.php:108-120 | the row takes the device id and the given video id and url; `watched_at` is the parsed given instant or now; each optional column (title, channel name and id, both durations, thumbnail, metadata) holds the given value and is null exactly when the key is missing or null; durations are never negative |
| EventIngestor.EventFromInputAsWritten | backend/app/Http/Controllers/Api/WatchEventController.php:47-59 | as written the row either ends in 500 or is the corrected row |
| EventIngestor.EventFromInputAsWrittenFailsOnOmittedField | backend/app/Http/Controllers/Api/WatchEventController.php:47-59 | `store` as written fails exactly when one of the seven keys read without `??` is left out, and otherwise builds the row `storeBatch` builds |
| EventIngestor.ExtensionPayloadCounterexample | backend/app/Http/Controllers/Api/WatchEventController.php:47-59 | the extension's own payload passes validation yet gets 500 as written; corrected, the four missing columns are null |
| EventIngestor.Store | backend/app/Http/Controllers/Api/WatchEventController.php:15-70 | validation failure 422, unknown uuid 404, inactive device 403, each before any write and changing nothing; otherwise exactly one event for that device is appended and only that device's `last_seen_at` becomes now |
| EventIngestor.BatchEvents | backend/app/Http/Controllers/Api/WatchEventController.php:106-121 | one row per input, in input order, on the device, with consecutive ids |
| EventIngestor.BatchEventsSnoc | backend/app/Http/Controllers/Api/WatchEventController.php:107-121 | the loop body: the rows for `inputs + [e]` are the rows for `inputs` followed by the row for `e` |
| EventIngestor.BatchOfOneIsStore | backend/app/Http/Controllers/Api/WatchEventController.php:108-120 | a batch of one event records the row the corrected single `store` records |
| EventIngestor.AppendEvents | backend/app/Http/Controllers/Api/WatchEventController.php:106-121 | the insert loop appends exactly the batch's rows, in input order with consecutive ids, and changes no code or device |
| EventIngestor.ValidBatch | backend/app/Http/Controllers/Api/WatchEventController.php:77-90 | a batch passes exactly when the uuid is given and non-empty and 1 to 100 events are given, each passing the single-event rules |
| EventIngestor.StoreBatch | backend/app/Http/Controllers/Api/WatchEventController.php:75-131 | any invalid element, an empty batch or more than 100 events gives 422 and records nothing; 404 and 403 change nothing; otherwise the events are appended in input order, the count equals the input length, and `last_seen_at` is set once |
| EventIngestor.PerPage | backend/app/Http/Controllers/Api/WatchEventController.php:166 | the page size is at least 1, 20 when `per_page` is absent, and the given size when positive |
| EventIngestor.CurrentPage | backend/app/Http/Controllers/Api/WatchEventController.php:165-166 | the page is at least 1, and the given page when it is at least 1 |
| EventIngestor.Matches | backend/app/Http/Controllers/Api/WatchEventController.php:138-163 | a matching event belongs to a device of the caller, has the requested device, lies within inclusive `from` and `to`, and contains the term in its lower-cased title or channel name, each only when its key is present |
| EventIngestor.Results | backend/app/Http/Controllers/Api/WatchEventController.php:138-165 | exactly the events of the caller's devices that pass the device, inclusive `from`/`to` and case-insensitive title-or-channel search filters, newest `watched_at` first |
| EventIngestor.ResultsCount | backend/app/Http/Controllers/Api/WatchEventController.php:138-165 | each matching event appears as often as in the table, and no other event appears |
| EventIngestor.Index | backend/app/Http/Controllers/Api/WatchEventController.php:136-169 | a page holds the caller's matching events, newest first, the consecutive results after the earlier pages: exactly `per_page` of them when that many remain, the remainder on the last page, none past the end; the total counts all matches |
| EventIngestor.EarlierPagesAreNewer | backend/app/Http/Controllers/Api/WatchEventController.php:165-166 | every event on an earlier page was watched no earlier than every event on a later page |
| EventIngestor.EveryMatchIsOnSomePage | backend/app/Http/Controllers/Api/WatchEventController.php:165-166 | every matching event of the caller is on some page |
| Common.ContainsAt | extension/viewer.js:122-126 | the substring test used for `includes` holds exactly when the term occurs at some offset |
| Viewer.LastKept | extension/viewer.js:86-101 | what `seen` holds for an id: none when no kept entry has the id, else the time of the last kept entry with it |
| Viewer.Dedup | extension/viewer.js:85-106 | the de-duplication of a history is never longer than it and always keeps the first entry |
| Viewer.DeduplicateHistory | extension/viewer.js:85-106 | the loop with the `seen` map returns the entry-by-entry de-duplication of its input |
| Viewer.DedupIsSubsequence | extension/viewer.js:85-106 | the output is a subsequence of the input, in order, never longer |
| Viewer.FirstViewKept | extension/viewer.js:93-95 | the first entry for each video id is always kept |
| Viewer.LaterViewKeptIffFarApart | extension/viewer.js:96-101 | a later entry for a seen id is kept exactly when it is more than 5000 ms from the last kept entry for that id; a NaN time is never far apart |
| Viewer.DedupRepeatsFarApart | extension/viewer.js:97-101 | in the output, consecutive kept views of one video are more than 5000 ms apart |
| Viewer.DedupIdempotent | extension/viewer.js:85-106 | de-duplicating the output again returns it unchanged |
| Viewer.SearchStep | extension/viewer.js:116-127 | an empty term keeps the list; otherwise exactly the entries whose lower-cased title or channel contains the lower-cased term, each as often as before, in order |
| Viewer.EmptyTermMatchesAll | extension/viewer.js:117-119 | every entry contains the empty term, so the special case agrees with the filter |
| Viewer.HistoryView.constructor | extension/viewer.js:17-19 | after loading, the whole history is shown, which is drawn from the loaded history |
| Viewer.HistoryView.FilterBySearch | extension/viewer.js:116-127 | the shown list becomes the search of the whole history, so it stays drawn from the loaded history in its order |
| Viewer.HistoryView.ApplySearchStep | extension/viewer.js:174-181 | the search step only narrows the shown list: the result is a subsequence of it, and so still of the loaded history |
| Viewer.HistoryView.Displayed | extension/viewer.js:52 | the rendered entries are the shown list de-duplicated: a subsequence of the shown list and of the loaded history |
| Scenarios.ActivateWithUsedCode | backend/app/Http/Controllers/Api/DeviceController.php:35-41 | a well-formed activation naming a used code is refused with 400, "expired" exactly when `expires_at` is before now, and no table changes |
| Scenarios.ActivateTwice | backend/app/Http/Controllers/Api/DeviceController.php:35-72 | a well-formed activation with a valid code succeeds; the same request again, at any later time, is refused with HTTP 400, "already used" unless the code has meanwhile expired |
| Scenarios.DeactivateThenStore | backend/app/Http/Controllers/Api/WatchEventController.php:40-44 | once its owner deactivates a device, a push for its uuid gets 422 or 403 and no event is recorded |

## Findings

| source | as written | input that shows it | evidently intended | confidence | as-written member | corrected member |
|---|---|---|---|---|---|---|
| backend/app/Http/Controllers/Api/WatchEventController.php:47-59 | `store` reads `video_title`, `channel_name`, `channel_id`, `duration_seconds`, `watch_duration_seconds`, `thumbnail_url` and `metadata` as `$validated['key']`. A nullable key the request leaves out is not in the validated array, and the read is an "undefined array key" error, which gives 500. | The extension's own push: its content script never sets `channelId`, `duration`, `watchDuration` or `thumbnailUrl`, so four keys are dropped from the JSON. A push of only `device_uuid`, `video_id` and `video_url`, which the rules admit, is another. | Read with `?? null`, as `storeBatch` does (lines 108-120), so a missing key is stored as null. | medium, not executed | EventIngestor.EventFromInputAsWritten, EventIngestor.ExtensionPayloadCounterexample | EventIngestor.EventFromInput |
| backend/app/Http/Controllers/Api/DeviceController.php:55-65 | A new device reads `browser_type`, `browser_version` and `os` as `$validated['key']`, so an activation that leaves one out gets 500. | An activation with code, uuid, name, browser type and version but no `os`. The extension's popup always sends all three, so only other clients hit this. | Read with `?? null` like `name`. | medium, not executed | DeviceRegistry.NewDeviceAsWritten, DeviceRegistry.OmittedOsCounterexample | DeviceRegistry.NewDevice |

## Left out

- The clock is the parameter `now`. Carbon's sub-second precision is not modelled; times are integer seconds, or milliseconds in the viewer.
- `Str::random` is a finite sequence `draws` of 12-character alphanumeric strings. `CodeRegistry.Generate` and `CodeRegistry.PickUnusedCode` require that some draw does not collide, because the source's retry loop has no bound of its own.
- Token minting is not modelled: the secret part of the Sanctum token is the parameter `plainText`, and token storage and revocation are left out.
- The `url` and `date` validation rules, and the parse of a `watched_at` string, are the parameters `isUrl` and `parseDate`. The parse of a viewer timestamp is the parameter `toMillis`.
- `from` and `to` of the history query are taken as already-parsed instants. MySQL's comparison of a datetime column with a string is not modelled.
- Case-insensitive matching is ASCII only: `toLowerCase`, `strtoupper` and the collation behind `like` are modelled on A-Z. Unicode case mapping and accent-insensitive collation are not.
- `like` wildcards (`%`, `_`) inside the search term are treated as ordinary characters.
- MySQL's case-insensitive collation for the `code` lookup in `activate` is not modelled; the lookup compares exactly. Generated codes are upper case, and the extension's popup trims the input, refuses anything but 12 characters and sends it upper-cased (lines 82 and 126-127 of extension/popup.js), so for every code the popup sends the exact match agrees with the case-insensitive one; only other clients could see a difference.
- Tables.FindDevice: the `device_uuid` lookups of `activate`, `heartbeat`, `store` and `storeBatch` (DeviceController.php lines 44 and 93, WatchEventController.php lines 32 and 92) also run under MySQL's case-insensitive collation, while the model compares uuids exactly. A request whose uuid differs from a stored one only in letter case finds that device in the source, but is treated as a new device by `Activate` and answered 404 by `Heartbeat`, `Store` and `StoreBatch` in the model. The extension always sends the lower-case uuid that `crypto.randomUUID()` produced and it stored (lines 4-16 of extension/popup.js), so only other clients see a difference.
- EventIngestor.PerPage: only non-negative integer `per_page` values are modelled (0 falls back to 15, the model default). Negative and non-numeric values are not.
- EventIngestor.CurrentPage: a non-integer `page` is treated like an absent one.
- Laravel's `ConvertEmptyStringsToNull` middleware is not modelled. The framework turns an empty string into null before validation, so a request that sends `""` is modelled by passing `Null` for that field.
- `integer` validation accepts only integers here; the numeric strings Laravel also accepts are not modelled.
- The `with('device')` eager load of the history query and the JSON field names of every response are not modelled.
- Paginator metadata other than the total, the page size and the current page (links, `last_page`) is not modelled.
- Ties in `orderBy(... 'desc')` are broken in an unspecified order by MySQL. The model fixes one order; the contracts only say sorted and a permutation.
- The `updated_at` timestamps that every save touches (activate, heartbeat, deactivate, the code update) are not modelled, nor is `created_at` of watch events; no endpoint of the core reads them.
- Transactions, concurrent requests and races on one code row are not modelled: each request runs alone.
- Routing and the `auth:sanctum` middleware are not modelled: the authenticated user is the parameter `user`.
- DashboardController.php is not part of this model. It is SQL aggregation with floating-point rounding.
- In viewer.js, `filterByDate` (local calendar dates), `updateStats`, `escapeHtml`, `exportHistory`, the HTML rendering and the `chrome.storage` loading are not modelled. `HistoryView.Displayed` covers only the de-duplication step of `displayHistory`.
- EventIngestor.Store / EventIngestor.StoreBatch: the database's column limits are narrower than the validation rules and are not modelled. `video_url` is validated to 500 characters but stored in a 255-character `string` column; `duration_seconds` and `watch_duration_seconds` have no upper bound in the rules but are 32-bit `integer` columns; `watched_at` is a `timestamp` column with its own range (lines 21-24 of the watch-events migration). Under MySQL's strict mode such input passes validation and then the insert fails with 500; in `storeBatch` the rows inserted before the failing one stay, as nothing runs in a transaction. The model answers Ok on such input and appends every row.
- EventIngestor.Store: modelled with the corrected row `EventFromInput`, so a push that leaves out one of the seven nullable keys is stored with nulls; as written (lines 47-59 of WatchEventController.php) it ends in 500, which `EventFromInputAsWritten` captures (Findings).
- DeviceRegistry.Activate: modelled with the corrected row `NewDevice`, so activating a new uuid without `browser_type`, `browser_version` or `os` creates the device; as written (lines 55-65 of DeviceController.php) it ends in 500, which `NewDeviceAsWritten` captures (Findings).
- DeviceRegistry.UpsertDevice: its new-device branch uses the corrected row `NewDevice`, for the reason given for `Activate`.
- Scenarios.ActivateTwice: the first activation succeeds under the corrected `NewDevice`; as written, a new uuid with a missing browser field ends in 500 the first time.
- Laravel's `TrimStrings` middleware is not modelled. Every request string is taken as it arrives at validation, after trimming and after empty strings became null, so a `Given` string stands for a trimmed one; whitespace-only input, which the framework turns into null, is modelled by passing `Null`.
- Every other file of the extension and the frontend is browser I/O or user interface, and is not part of this model.
