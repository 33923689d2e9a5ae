# External Request Manager: the policy and bookkeeping core in Dafny

This project models the core of a WordPress plugin that watches the outbound HTTP
calls a site makes. The core has five parts.

- **The interceptor** (`RequestLogger`). It sees every outbound call and decides one of four outcomes:
  - the call goes ahead untouched, because it has no host or targets the site itself or the local machine;
  - it is refused with 403 Forbidden (RFC 9110 section 15.5.4), because its host is blocked;
  - it is refused with 429 Too Many Requests (RFC 6585 section 4), and every row of its host is blocked, because it came within the host's cooldown interval;
  - it goes ahead and is folded into the aggregate row of its (host, method) bucket.
- **The aggregation** (`RequestLogger`):
  - find-or-create of the bucket row: the call counter is incremented, soft-deleted rows come back, and source columns are filled first-writer-wins;
  - the bounded URL history, which never repeats a URL logged without surrounding blanks or an embedded newline;
  - the request-size estimate;
  - the truncated response body;
  - the ten-entry notification list;
  - the daily retention sweep.
- **The store** (`Database.HostStore`). It holds:
  - the requests table and the deleted-requests audit table, as sequences of rows in table order;
  - the rate-limit transients, as a map from host to the time of the last permitted call;
  - the notification transient;
  - the AUTO_INCREMENT counter.

  Its class invariant is the table's primary key and `UNIQUE KEY host_method`. Every SQL statement is a filter (`Where`), an in-place rewrite (`UpdateWhere`), a lookup (`First`, standing for `LIMIT 1` without `ORDER BY`: the database may return any match, and the model takes the first one in table order) or a map into audit rows, all defined in `Table`.
- **The settings sanitisers** (`Settings`): integer clamps and the column filter.
- **The admin command handlers** (`Ajax`): the validation and state changes of toggle-block, bulk actions, the detail view, clear-logs, the rate-limit form and restore.

Time is an integer count of seconds passed in by the caller. The current user is an integer passed in too. A character stands for one byte. NULL text columns are the empty string, which PHP's `empty()` treats alike (`PhpStrings.Falsy`: `""` and `"0"`).

Where the documented behaviour and the code differ, the model follows the code:

- **A new rate limit takes effect one call late.** The check records no time while a host has no limit. So the first call after a limit is set finds nothing remembered and goes through. Only the call after it is refused with 429, and the one after that with 403 (`Ajax.RateLimitWalkthrough`).
- **One daily sweep deletes every stale row.** The sweep runs its soft phase and its hard phase with the same cutoff, both measured from `last_timestamp`. So one run hard-deletes every row not seen within the retention period, live or not. No row is merely soft-deleted and left for a later day (`Database.DailySweepRemovesStale`, `RequestLogger.DailyCleanup`).
- **The two bulk-delete paths audit the block flag differently.**
  - The store's bulk delete clears the block and the rate limit before `delete_request` reads the row, so its audit rows always say "not blocked".
  - The admin handler's bulk delete calls `delete_request` directly, so its audit rows keep the flag.
- **A body limit of 0 keeps the old body.** `update_response` then leaves the previously stored response body in place. It does not clear it.
- **Logging a call revives a deleted row.** `log_request` looks its bucket up without regard to the deleted flag and clears the flag.
- **One live row decides the host.** The block check and the rate-limit interval each read the one live row of the host that `LIMIT 1` returns, not all of them. The model takes the first live row in table order. So a host whose rows disagree is judged by whichever row the lookup returns (`RequestLogger.IsBlockedMeaning` states what holds whichever row that is).
- **A URL with surrounding blanks is listed again on every call.** The history check compares the URL as given with the trimmed entries. A URL like `"a "` whose trimmed form is already listed is appended again, so the history holds a repeat (`UrlLog.PaddedUrlRepeats`, `UrlLog.NextLogRepeatsPaddedUrl`).
- **A URL with an embedded newline is split on the next read.** The URL is stored as given, but the history is read back by splitting on newlines. So one call can add two entries and push the history past the maximum (`UrlLog.NewlineUrlOverflows`), and a listed URL can come back a second time inside such a URL (`UrlLog.NewlineUrlRepeats`).

## Model

| member | source | states |
|---|---|---|
| PhpStrings.TrimLeft | includes/class-request-logger.php:236 | `ltrim`: the result is a suffix of the input, starting with no trim character; everything dropped is a trim character |
| PhpStrings.TrimRight | includes/class-request-logger.php:236 | `rtrim`: the result is a prefix of the input, ending with no trim character; everything dropped is a trim character |
| PhpStrings.Trim | includes/class-request-logger.php:236 | `trim`: neither end is a trim character; no character appears that the input lacks |
| PhpStrings.TrimMiddle | includes/class-request-logger.php:236 | `trim` exactly: the result is the slice of the input starting where `ltrim` stops, and every character dropped before or after it is a trim character |
| PhpStrings.TrimIdempotent | includes/class-ajax.php:135 | trimming twice is trimming once |
| PhpStrings.Explode | includes/class-request-logger.php:236 | `explode("\n")`: at least one piece; no piece holds a newline; joining the pieces gives the input back |
| PhpStrings.ExplodeSingle | includes/class-request-logger.php:250 | a newline-free string splits into itself alone |
| PhpStrings.ExplodeCons | includes/class-request-logger.php:236 | splitting at the first newline gives the piece before it, then the pieces of the rest |
| PhpStrings.ExplodeImplode | includes/class-request-logger.php:236-245 | joining newline-free pieces and splitting again gives the pieces back |
| Settings.SanitizeRetentionDays | includes/class-settings.php:172-175 | the result is never negative, and a non-negative value is kept |
| Settings.SanitizeCheckbox | includes/class-settings.php:177-179 | the result is 0 or 1, and 1 exactly for a truthy value |
| Settings.SanitizePerPage | includes/class-settings.php:181-184 | the result lies in [5, 200], and an in-range value is kept |
| Settings.SanitizeMaxUrls | includes/class-settings.php:186-189 | the result lies in [1, 100], and an in-range value is kept |
| Settings.SanitizeMaxResponseBodyLength | includes/class-settings.php:191-195 | the result lies in [0, 1048576], and an in-range value is kept |
| Settings.ClampsIdempotent | includes/class-settings.php:172-195 | sanitising an already sanitised value changes nothing, for each integer clamp |
| Settings.KeepAllowed | includes/class-settings.php:197-203 | `array_intersect`: a subsequence of the list holding only allowed values, each allowed value as often as in the list |
| Settings.SanitizeColumns | includes/class-settings.php:197-203 | a non-list gives the default four columns; a list gives its allowed entries in order, repeats included |
| Records.AuditOf | includes/class-database.php:231-238 | an audit row copies the row's host, URL and block flag, with the deletion time and user |
| Records.Attribute | includes/class-ajax.php:114-121 | a known plugin is credited first, then a known theme, else WordPress core |
| UrlLog.TrimAndFilter | includes/class-request-logger.php:236 | `array_filter(array_map('trim', ...))`: never longer than the input; newline-free pieces give only proper entries |
| UrlLog.TrimAndFilterOne | includes/class-ajax.php:132-136 | one piece contributes its trimmed form, unless that is PHP-empty, in which case it contributes nothing |
| UrlLog.TrimAndFilterConcat | includes/class-ajax.php:132-136 | the pieces are processed in order and independently: the result for `a + b` is the result for `a` followed by that for `b` |
| UrlLog.TrimAndFilterEntries | includes/class-request-logger.php:236 | entries pass through trimming and filtering unchanged |
| UrlLog.Entries | includes/class-ajax.php:132-136 | every URL read back from a stored log is a proper entry: no newline, nothing to trim, not empty |
| UrlLog.FalsyLogIsEmpty | includes/class-request-logger.php:235-236 | a log PHP treats as empty holds no URL |
| UrlLog.EntriesOfImplode | includes/class-request-logger.php:236-245 | writing entries out and reading them back gives the same entries |
| UrlLog.EntriesOfSingle | includes/class-request-logger.php:249-251 | a new row's log holds just its URL |
| UrlLog.NextLogKeepsListedUrl | includes/class-request-logger.php:238-248 | a URL already in the history leaves the stored log unchanged |
| UrlLog.NextLogAppendsUrl | includes/class-request-logger.php:236-245 | for any newline-free URL the history does not list as given, the history read back is the listed URLs and then the URL's trimmed form (nothing when that is PHP-empty), after dropping the oldest piece once the list exceeds the maximum |
| UrlLog.NextLogAppendsNewUrl | includes/class-request-logger.php:238-245 | a new URL is appended last, and the oldest entry is dropped when the list would exceed the maximum |
| UrlLog.AppendKeepsDistinct | includes/class-request-logger.php:238-239 | appending a URL the list lacks keeps the list free of repeats |
| UrlLog.DropOldestKeepsDistinct | includes/class-request-logger.php:241-243 | dropping the oldest entry keeps the list free of repeats |
| UrlLog.DropOldestKeepsNewest | includes/class-request-logger.php:239-243 | with room for one entry, the URL just appended survives the shift as the newest entry |
| UrlLog.NextLogBounded | includes/class-request-logger.php:230-251 | for any newline-free URL, padded or not, the history never grows past the larger of the maximum and its previous length |
| UrlLog.NextLogDistinct | includes/class-request-logger.php:230-251 | a repeat-free history stays repeat-free when the newline-free URL is listed as given or its trimmed form is not listed |
| UrlLog.PaddedUrlRepeats | includes/class-request-logger.php:236-245 | a URL that differs from the one listed entry but trims to it is appended again, so the history reads that entry twice |
| UrlLog.NextLogRepeatsPaddedUrl | includes/class-request-logger.php:236-245 | the concrete case: logging `"a "` on the history `"a"` gives the history `"a"`, `"a"` |
| UrlLog.EntriesOfJoin | includes/class-request-logger.php:236 | reading a log whose first line is an entry gives that entry, then the entries of the rest |
| UrlLog.NextLogOfSingle | includes/class-request-logger.php:236-245 | a URL holding a newline, logged on a one-entry history, is stored as given: appended after a newline when there is room for two, alone otherwise |
| UrlLog.NewlineUrlOverflows | includes/class-request-logger.php:230-251 | with a maximum of one URL, logging `v + "\n" + w` on the history `u` leaves two entries, `v` and `w` |
| UrlLog.NewlineUrlRepeats | includes/class-request-logger.php:230-251 | with room for two URLs, logging `v + "\n" + u` on the history `u` leaves `u`, `v`, `u`, a repeat |
| UrlLog.NextLogListsUrl | includes/class-request-logger.php:230-251 | with room for one URL, the logged URL is in the history afterwards |
| Table.Where | includes/class-database.php:149-155 | a `SELECT ... WHERE`: only rows of the table that satisfy the condition, and all of them |
| Table.UpdateWhere | includes/class-database.php:213-217 | an `UPDATE ... WHERE`: same length and order; each row is rewritten exactly when it satisfies the condition |
| Table.First | includes/class-request-logger.php:165-168 | a `LIMIT 1` lookup: the answer is a matching row of the table, and there is none exactly when no row matches |
| Table.UniqueTail | includes/class-database.php:98 | the keys of the rows after the first are unique too |
| Table.SameKeySameRow | includes/class-database.php:98 | with unique keys, two rows sharing an id or a bucket are the same row |
| Table.WhereUnique | includes/class-database.php:98 | a DELETE keeps the keys unique |
| Table.HeadDiffers | includes/class-database.php:98 | the first row differs in id and bucket from every later row |
| Table.ConsUnique | includes/class-database.php:98 | prefixing a row that clashes with no other keeps the keys unique |
| Table.UpdateWhereUnique | includes/class-database.php:98 | an UPDATE that rewrites no key column keeps the keys unique |
| Table.BucketAtMostOne | includes/class-database.php:98 | a (host, method) bucket holds at most one row |
| Table.WhereNone | includes/class-database.php:149-155 | a condition no row meets selects nothing |
| Table.WherePartition | includes/class-database.php:206-210 | two disjoint conditions covering a third split its count |
| Table.WhereSame | includes/class-database.php:149-155 | conditions that agree on every row select the same rows |
| Table.WhereTwice | includes/class-database.php:285-293 | filtering twice is filtering once by both conditions |
| Table.WhereAll | includes/class-database.php:224-226 | a condition every row meets keeps the whole table |
| Table.UpdateWhereIdle | includes/class-database.php:311-317 | an UPDATE whose condition no row meets changes nothing |
| Table.WhereAfterUpdate | includes/class-database.php:295-303 | an UPDATE followed by a DELETE keeps exactly the rows the pair is meant to keep |
| Table.FirstAfterUpdate | includes/class-request-logger.php:223-227 | after an UPDATE that keeps the lookup key, the lookup finds the updated row |
| Table.FirstAfterWhere | includes/class-database.php:263-270 | after a DELETE that spares every match, the lookup finds the same row |
| Table.FirstInBucket | includes/class-request-logger.php:223-227 | with unique keys, a row's own bucket lookup finds that row |
| Table.MapAt | includes/class-database.php:287-291 | the i-th audit row is the audit of the i-th selected row |
| Table.MapSnoc | includes/class-database.php:231-238 | one more deleted row adds its audit row at the end |
| Table.WhereWellFormed | includes/class-database.php:78-98 | a DELETE keeps the table invariant |
| Table.UpdateWhereWellFormed | includes/class-database.php:78-98 | an UPDATE that rewrites no key column keeps the table invariant |
| Table.InsertWellFormed | includes/class-database.php:78-98 | inserting a new bucket under the next id keeps the table invariant |
| Table.ColumnUpdatesKeepKeys | includes/class-database.php:213-217 | the plugin's column updates rewrite no key column |
| Table.Picked | includes/class-database.php:263-270 | the rows a one-id-at-a-time delete loop finds are rows of the table with listed ids |
| Table.PickedCovers | includes/class-database.php:263-270 | every row whose id is listed is found by the loop |
| Table.PickedOnce | includes/class-database.php:263-270 | with unique keys the loop finds no row twice, and finds as many rows as `WHERE id IN (ids)` selects, so one audit row is written per deleted row |
| Table.DeleteStep | includes/class-database.php:263-270 | one turn of a delete loop leaves the rows of one more id removed |
| Table.ClearThenDelete | includes/class-database.php:268-269 | clearing a row's policy before deleting it does not change what survives |
| Table.ClearDeleteStep | includes/class-database.php:263-270 | one turn of the store's clear-then-delete loop leads from the state after `k` ids to the state after `k + 1`: one more id removed, its cleared audit row appended |
| Table.DeleteLoopStep | includes/class-ajax.php:64-68 | one turn of a delete loop removes one more id and appends its audit row, if found |
| Database.Window | includes/class-database.php:178-187 | `LIMIT`/`OFFSET`: at most `limit` rows, taken consecutively from `offset`; a negative value gives none |
| Database.NonZero | includes/class-database.php:253 | `array_filter` of ids: exactly the non-zero ids |
| Database.HostStore.constructor | includes/class-database.php:70-127 | a fresh store is empty and satisfies the invariant |
| Database.HostStore.Counts | includes/class-database.php:202-211 | only live rows are counted; total = blocked + allowed |
| Database.HostStore.Detail | includes/class-database.php:193-200 | the live row with the id, and none exactly when every row with it is deleted |
| Database.HostStore.Requests | includes/class-database.php:133-191 | the total counts every live row passing the filter and search; the page is the window at `(paged-1)*per_page` and holds no deleted row and no row failing the filter |
| Database.HostStore.UpdateRequestBlocked | includes/class-database.php:213-217 | the row with the id, deleted or not, gets the flag; nothing else changes |
| Database.HostStore.DeleteRequest | includes/class-database.php:219-245 | a missing id is refused with no write; otherwise exactly one audit row, then a hard delete or a soft-delete flag |
| Database.HostStore.BulkAction | includes/class-database.php:247-277 | no usable id or an unknown action is refused with no change; block, unblock and restore rewrite exactly the listed rows; delete removes exactly the listed rows with one cleared audit row each (no row twice, by `Table.PickedOnce`) |
| Database.HostStore.ClearAndDelete | includes/class-database.php:266-269 | one id: clear its block and rate limit, then hard-delete it with its audit row |
| Database.HostStore.ClearAndDeleteEach | includes/class-database.php:263-271 | exactly the listed rows go, and the audit gains one unblocked entry per removed row, in list order (no row twice, by `Table.PickedOnce`) |
| Database.HostStore.ClearAllLogs | includes/class-database.php:279-305 | each live row the chosen mode clears (the allowed ones when blocked rows are kept, every one otherwise) gets one audit row and is removed, exactly the other rows survive, and the counts afterwards are stated |
| Database.HostStore.CleanupOldLogs | includes/class-database.php:307-318 | fewer than one day is refused; otherwise exactly the stale live rows are marked deleted |
| Database.HostStore.PermanentlyDeleteOldLogs | includes/class-database.php:320-341 | fewer than one day is refused; otherwise exactly the stale soft-deleted rows are audited by user 0 and removed |
| Database.SoftSweep | includes/class-database.php:313-317 | each row becomes deleted exactly when it was deleted or is stale; the length is kept |
| Database.HardSweep | includes/class-database.php:325-340 | a row survives exactly when it is not a stale soft-deleted row |
| Database.SoftSweepIdempotent | includes/class-database.php:307-318 | a second soft phase changes nothing |
| Database.HardSweepIdempotent | includes/class-database.php:320-341 | after the hard phase no stale deleted row is left, so a second run audits and removes nothing |
| Database.DailySweepRemovesStale | includes/class-request-logger.php:545-553 | soft then hard phase with one cutoff removes exactly the stale rows and keeps the rest unchanged |
| Database.ClearExceptBlockedCounts | includes/class-database.php:285-293 | after clearing except blocked, the live blocked and soft-deleted rows are all still there and no live allowed row is |
| Database.ClearAllLeavesDeleted | includes/class-database.php:295-303 | after clearing all, exactly the soft-deleted rows remain, unchanged, and no live row is left |
| RequestLogger.HeadersSizeAppend | includes/class-request-logger.php:445-456 | the header estimate adds up header by header |
| RequestLogger.ValuesSizeAtLeast | includes/class-request-logger.php:447-450 | every header value costs at least four bytes |
| RequestLogger.CalculateRequestSize | includes/class-request-logger.php:432-461 | the loops compute 20 + body length + the sum of `len(name)+len(value)+4` over header values; at least 20 plus the body |
| RequestLogger.IsBlockedMeaning | includes/class-request-logger.php:161-171 | a blocked host has a live blocked row; a host without live rows is not blocked; a host whose live rows are all blocked is |
| RequestLogger.AdmittedSpaced | includes/class-request-logger.php:173-209 | under repeated checks, the permitted calls of a limited host lie at least the interval apart, the first that far from the remembered time |
| RequestLogger.AdmittedUnlimited | includes/class-request-logger.php:183-185 | without a positive interval every call is permitted |
| RequestLogger.CheckRateLimit | includes/class-request-logger.php:173-209 | no positive interval: permitted, nothing recorded; nothing remembered: permitted, now recorded; interval elapsed: permitted, now recorded; else a violation with the time kept |
| RequestLogger.ExpireRateLimit | includes/class-request-logger.php:194 | the transient lapses: the host has no remembered time |
| RequestLogger.ExpiryMatchesCooldown | includes/class-request-logger.php:192-207 | the remembered time can lapse only once the interval is over, and a call then is permitted and recorded as if it had not lapsed |
| RequestLogger.BlockingHostBlocks | includes/class-request-logger.php:44-50 | blocking every row of a host with a live row makes the block check refuse it |
| RequestLogger.RecordedSize | includes/class-request-logger.php:218-220 | a size of 0 is replaced by the estimate of an empty call, 20; any other size is kept |
| RequestLogger.Fill | includes/class-request-logger.php:266-278 | a source column is filled only while empty and only with a non-empty value |
| RequestLogger.LastTen | includes/class-request-logger.php:345-348 | the result is the suffix of the list of length ten, or the whole list when it has ten entries or fewer, in insertion order |
| RequestLogger.LastTenAgain | includes/class-request-logger.php:336-348 | trimming after every addition equals trimming the whole history once |
| RequestLogger.FirstAppend | includes/class-request-logger.php:289-310 | an inserted row that matches a lookup nothing matched before becomes its answer |
| RequestLogger.LoggedBucket | includes/class-request-logger.php:211-312 | find-or-create: the bucket's row is live and holds this call; an existing row keeps id, first time and block flag, counts one more, fills only empty sources, updates the URL history; a new row has the next id, one call, first = last = now, not blocked; other buckets are untouched |
| RequestLogger.TotalCallsAppend | includes/class-request-logger.php:289-310 | the call total of appended rows adds up |
| RequestLogger.TotalAfterTouch | includes/class-request-logger.php:256-286 | updating one row with one call more adds one call to the total |
| RequestLogger.LoggedCountsOneCall | includes/class-request-logger.php:255-312 | every logged call is counted exactly once: the total over all rows grows by one |
| RequestLogger.SendNotification | includes/class-request-logger.php:320-351 | the list gets the new entry and keeps exactly its last ten (all of them when there are ten or fewer) |
| RequestLogger.LogRequest | includes/class-request-logger.php:211-318 | the new rows, next id and notification list are those of the find-or-create above; the table invariant is kept |
| RequestLogger.UpdateBucket | includes/class-request-logger.php:255-288 | the UPDATE branch: only the bucket's row is rewritten, counting the call and, when tracking, its URL history; the invariant is kept |
| RequestLogger.InsertBucket | includes/class-request-logger.php:289-317 | the INSERT branch: one new row under the next id, appended at the end, and the notification list grows when notifications are on; the invariant is kept |
| RequestLogger.NextUrlsLog | includes/class-request-logger.php:233-248 | the straight-line append-and-shift steps give the same stored log as `UrlLog.NextLog`, about which the lemmas above are proved |
| RequestLogger.Prefix | includes/class-request-logger.php:503-508 | `mb_substr(s, 0, max)`: a prefix of length min(len, max), or with a negative max, that many characters off the end |
| RequestLogger.StoredBody | includes/class-request-logger.php:503-514 | an uncut body is stored whole; a cut body is its first `max` characters plus a newline and "..."; never longer than max + 4 |
| RequestLogger.StoredBodyTellsCut | includes/class-request-logger.php:510-514 | the stored body is longer than the limit exactly when the body was cut, and then starts with the body's prefix |
| RequestLogger.RespondedBucket | includes/class-request-logger.php:466-535 | without a bucket row nothing changes; otherwise that row gets the code, and the truncated body when one came and storage is on, else keeps its old body; all other rows stay |
| RequestLogger.UpdateResponse | includes/class-request-logger.php:466-535 | the truncation computed step by step gives the rows described above; the invariant is kept |
| RequestLogger.BlockHost | includes/class-request-logger.php:40-50 | every row of the host, any method, is blocked, and the host is blocked afterwards |
| RequestLogger.Screen | includes/class-request-logger.php:30-57 | a blocked host gets 403 with no change; a violation blocks the host and gets 429; otherwise the call may go on with the rate check's recording |
| RequestLogger.InterceptRequest | includes/class-request-logger.php:16-79 | skipped hosts proceed untouched; blocked hosts get 403 before any rate check; a violation blocks the host and gets 429; any other call is logged and proceeds; refused calls are never logged |
| RequestLogger.AuditsAfterUpdate | includes/class-database.php:320-341 | the audit rows of a selection after an UPDATE depend only on the rows it is meant to pick |
| RequestLogger.DailyCleanup | includes/class-request-logger.php:545-553 | with auto-clean on and positive retention, every stale row goes, live or not, with one audit row each by user 0; otherwise nothing changes |
| Ajax.StatusOf | includes/class-ajax.php:124-129 | rate limited exactly when the interval is positive; otherwise blocked or allowed by the flag |
| Ajax.UrlsList | includes/class-ajax.php:132-136 | only proper URL entries; empty unless tracking is on |
| Ajax.UrlsListIsEntries | includes/class-ajax.php:132-136 | with tracking on, the list is what the log holds |
| Ajax.UrlsListShowsLoggedUrl | includes/class-ajax.php:132-136 | after a tracked call, the detail view lists its URL |
| Ajax.ViewOf | includes/class-ajax.php:113-158 | the view shows the row with its derived status, source and URL list |
| Ajax.GetDetail | includes/class-ajax.php:90-160 | id 0 is invalid; a missing or deleted row is not found; a live row with the id is shown, with its status, source and URL list as `ViewOf` derives them |
| Ajax.ToggleBlock | includes/class-ajax.php:18-43 | id 0 is invalid; a missing or deleted row is not found; otherwise the row's flag is negated and the counts are returned |
| Ajax.ToggleFlipsOneRow | includes/class-ajax.php:35-36 | toggling flips exactly the row with the id; every other row is unchanged |
| Ajax.DeleteEach | includes/class-ajax.php:64-68 | exactly the listed rows go, with one audit row each that keeps the block flag (no row twice, by `Table.PickedOnce`) |
| Ajax.DeleteEachAudits | includes/class-ajax.php:64-68 | every deleted row has its audit row, and every unlisted row survives |
| Ajax.BulkAction | includes/class-ajax.php:45-88 | no ids or no action is invalid; an unknown action is refused; delete runs its own loop; other actions go to the store, and no usable id is "Action failed" |
| Ajax.ClearModeOf | includes/class-ajax.php:169 | a missing mode means all; only the two known modes are accepted |
| Ajax.ClearLogs | includes/class-ajax.php:162-186 | except-blocked and all run the matching clear and return the counts; any other mode is an error with no change |
| Ajax.NonNegative | includes/class-ajax.php:207-208 | `max(0, v)`: not negative, and a non-negative value is kept |
| Ajax.UpdateRateLimit | includes/class-ajax.php:188-212 | id 0 is an error; otherwise only the row with the id gets the clamped interval and call count |
| Ajax.RateLimitStoredNonNegative | includes/class-ajax.php:206-209 | no stored interval or call count is ever negative, and only the row with the id changes |
| Ajax.RestoreDeleted | includes/class-ajax.php:214-232 | id 0 is an error; otherwise the row with the id is live again |
| Ajax.RestoreShowsRow | includes/class-ajax.php:229 | a restored row is found by the detail lookup again, with everything else it held |
| Ajax.RateLimitWalkthrough | includes/class-request-logger.php:173-209 | a host called once, then limited to 60 s, then called three times a second apart: proceed, proceed, 429, 403 |
| Ajax.CallsAfterNewLimit | includes/class-request-logger.php:16-57 | with a new limit over one second and no remembered time, three calls a second apart give proceed, 429, 403 |

## Left out

- `get_request_source` (includes/class-request-logger.php:353-430) reads the PHP call stack and file paths. The attribution is an input record of plugin, theme and file.
- `capture_response` and `track_request_args` (includes/class-request-logger.php:84-159) guess argument shapes and correlate through a global variable. `RequestLogger.UpdateResponse` takes the host, method, code and body explicitly.
- The request transient written in `intercept_request` (lines 64-73) is never read by the core, so it is not modelled.
- Response times come from `microtime` and are floating point, so they are not modelled. The same holds for `format_bytes` in class-ajax.php, which uses `log` and `pow`.
- Schema creation, `dbDelta`, migration and upgrade are left out (class-database.php:8-127). The schema defaults appear only as the fields of a new row and the empty store.
- Cron scheduling, nonces, capability checks, the notification message text and the notification transient's one-hour expiry are left out.
- Transient expiry is not automatic. `RequestLogger.ExpireRateLimit` lets the caller drop a remembered time, and `RequestLogger.ExpiryMatchesCooldown` shows that this changes no verdict.
- All clocks are one integer: WordPress local time, MySQL `NOW()` and `current_time('timestamp')` are not told apart.
- `LIKE` is modelled as case-sensitive substring search, with no escaping. The listing's `ORDER BY` is left out: rows come in table order.
- SQL `=` on text is exact comparison. The table's collation (`get_charset_collate()`, class-database.php:73) usually ignores case, so `"Example.com"` would match the row of `"example.com"` in the block check, the rate-limit lookup and the bucket lookup, and `UNIQUE KEY host_method` would refuse the second of the two rows. `OnHost`, `InBucket` and the table invariant compare exactly, so the model treats such hosts as distinct.
- Which row a `LIMIT 1` lookup without `ORDER BY` returns is left to the database; `Table.First` takes the first match in table order. Where at most one row can match (an id lookup, a bucket lookup under the unique keys) the choice makes no difference. What `RequestLogger.IsBlocked` and `RequestLogger.RateInterval` answer for a host whose live rows disagree holds only for the model's choice; `RequestLogger.IsBlockedMeaning` holds for any.
- Host extraction is left out: `intercept_request` takes the call's host from its URL and the site's host from `home_url()` with `wp_parse_url` (includes/class-request-logger.php:18-19). `RequestLogger.InterceptRequest` takes both hosts as inputs, and nothing ties the host to the URL.
- UrlLog.NextLogBounded and UrlLog.NextLogDistinct hold only for URLs without a newline. The source accepts any URL; one with an embedded newline is split on the next read, which can exceed the maximum or repeat a listed URL (`UrlLog.NewlineUrlOverflows`, `UrlLog.NewlineUrlRepeats`).
- PHP value juggling is left out:
  - loose `in_array`;
  - `(int)` casts of submitted strings, and `array_filter` on string ids, which become integers with 0 as the falsy one;
  - `sanitize_text_field`;
  - non-string header values, and a headers argument that is a string rather than an array, which `calculate_request_size` ignores (includes/class-request-logger.php:445);
  - `http_build_query` encoding, whose result is an input;
  - the difference between `mb_substr` character counts and `strlen` byte counts, since a character stands for one byte.
- SQL failures are left out: a statement never fails, and a query returning 0 affected rows counts as success, as the handlers treat it.
- `Database.Window` treats a negative LIMIT or OFFSET as an empty page, which is what the failing query yields.
- Concurrency and atomicity are left out: the model is single-threaded.
- `Database.HostStore.Requests`: the page's contents are stated for table order, not for the `ORDER BY request_count DESC` order.
