# Cal_Sync in Dafny

A model of the change-detection and reconciliation engine of Cal_Sync, a one-way
calendar synchroniser. It reads events from a CalDAV server or from macOS EventKit and
pushes them to an iCloud calendar, which it drives through AppleScript. Each source event
gets a stable key (`uid`, or `uid#recurrence-id`). Its description carries a
`[SYNC_UID:key]` marker. Its semantic fields are hashed. A ledger (`sync_state["events"]`)
maps each key to what was last pushed. Each run diffs the source against the ledger. It
pushes additions, modifications and deletions, re-creates events that someone deleted by
hand in iCloud, and verifies the result against the destination's listing. When
verification fails it falls back to a full resync. A batch mode fans one configuration out
into one single-source sync per mapping.

The project has ten modules:

| file | module | what it holds |
|---|---|---|
| basics.dfy | `Basics` | `Option`, and `Map`, `Filter`, `Collect` on sequences with their lemmas |
| text.dfy | `Text` | Python string semantics: `strip`, `split()`, `split(sep)`, `join`, `replace`, `find`, `str(int)`, `int(str)`, and the lexicographic sort |
| chrono.dfy | `Chrono` | `date`/`datetime` with years 1..9999; `+ timedelta`; `astimezone(utc)`; `isoformat`/`fromisoformat`; `strftime` |
| identity.dfy | `Identity` | `_norm_text`, `_to_utc_iso`, `_norm_rrule`, `_norm_exdate`, the stable key, the marker rule, `parse_ical_event` and `generate_event_hash` |
| markers.dfy | `Markers` | `re.findall(r'\[SYNC_UID:([^\]]+)\]', …)` |
| ledger.dfy | `Ledger` | `load_sync_state`, `detect_changes`, marker extraction, the recovery set, calendar selection |
| icloud.dfy | `Icloud` | the destination's text protocol: escaping, end-date completion, date literals, result strings, the listing parser |
| calsync.dfy | `CalSync` | class `Syncer`, which holds the ledger and runs `sync_to_icloud`, `detect_icloud_deletions`, `verify_sync`, `force_resync` and `sync_calendars` |
| eventkit.dfy | `Eventkit` | minute rounding, the RRULE builder, EventKit event conversion, calendar-title selection |
| batch.dfy | `Batch` | `run_eventkit_batch` and `get_batch_summary` |

Several things outside the model are passed in as parameters:

- **The destination.** It is a `Client` value holding the set of methods it offers and what
  each call answers when it is the n-th script run of the process. `CalSync.Integration`
  ties a client to the AppleScript functions of `Icloud`.
- **MD5.** It is a parameter `md5: string -> string`.
- **Clock stamps.** `datetime.now().isoformat()` is a parameter `now`.
- **Persistence.** `save_sync_state` is the field `Syncer.saved`, the state last written.
- **Batch syncs.** The sync a batch mapping runs is a `Runner` function, from the mode, the
  configuration file path, the copied configuration and the state file name, to an
  `Outcome`.

The code and its design notes disagree in two places, and the model follows the code:

- **Marker idempotence.** Re-marking a description that is exactly the bare marker appends
  a second marker (`Identity.MarkBareAppends`).
- **`Error:` in a title.** An event title containing `Error:` makes a whole successful
  listing read as a failed run (`Icloud.ErrorInTitleLosesListing`).

## Model

| member | source | states |
|---|---|---|
| Text.Strip | cal_sync.py:51 | `str.strip()`: the result has no whitespace at either end and is unchanged on such input |
| Text.NormText | cal_sync.py:49-53 | `_norm_text` output is normalised (no surrounding whitespace, single spaces between words) and `""` maps to `""` |
| Text.NormTextIdempotent | cal_sync.py:49-53 | `_norm_text` is idempotent |
| Text.NormTextKeepsVisible | mac_eventkit_bridge.py:29-35 | `_norm_text` keeps every non-whitespace character in order; only whitespace is removed or rewritten |
| Text.SplitJoin | icloud_integration.py:325 | splitting a join at the separator gives back the parts when no separator can start inside a part |
| Text.ReplaceChar | icloud_integration.py:473-479 | replacing a one-character string is the per-character map that rewrites that character |
| Text.ParseIntRoundTrip | icloud_integration.py:320 | `int(str(i)) == i` |
| Chrono.Midnight | icloud_integration.py:412-414 | `datetime.combine(d, time())` is a valid naive value on day `d` |
| Chrono.AddHour | icloud_integration.py:461 | `+ timedelta(hours=1)` adds 60 wall minutes and keeps minute, second, microsecond and zone; it fails exactly from 9999-12-31 23:00 on |
| Chrono.ToUtc | cal_sync.py:66-70 | `astimezone(timezone.utc)` yields a `+00:00` value whose wall clock is shifted by the offset, keeping second and microsecond |
| Chrono.ToUtcIdempotent | cal_sync.py:66-70 | shifting to UTC twice is shifting once |
| Chrono.ToUtcNaive | cal_sync.py:67-68 | a naive value is read as UTC and only gains the `+00:00` marker |
| Chrono.IsoDate | cal_sync.py:62-63 | `date.isoformat()` is ten characters long |
| Chrono.Strftime | icloud_integration.py:434 | `strftime("%Y-%m-%d %H:%M:%S")` is nineteen characters long |
| Chrono.ParseIso | icloud_integration.py:420-423 | `fromisoformat` as Python 3.7 to 3.10 reads it: whatever it accepts is a valid datetime (the round trip, the bare date and the minute form are the lemmas below) |
| Chrono.ParseTime | icloud_integration.py:420-423 | the time fields read are in the ranges `datetime` accepts: hour under 24, minute and second under 60, microsecond under a million |
| Chrono.ParseOffset | icloud_integration.py:420-423 | an accepted offset is strictly within a day either way |
| Chrono.ParseClock | icloud_integration.py:420-423 | the clock and zone read after the separator make a valid datetime on any valid day |
| Chrono.ParseClockRoundTrip | icloud_integration.py:420-423 | the time and offset `isoformat` writes read back to the same clock and zone |
| Chrono.ParseIsoMinutes | icloud_integration.py:420-423 | `YYYY-MM-DDTHH:MM` parses as that minute, naive |
| Chrono.ParseIsoRoundTrip | icloud_integration.py:420-423 | `fromisoformat(isoformat(t)) == t` |
| Chrono.ParseIsoDay | icloud_integration.py:423 | a bare ISO date parses as its midnight |
| Chrono.IsoDateTimeInjective | cal_sync.py:70 | `isoformat()` is injective on datetimes |
| Chrono.IsoFormatInjective | cal_sync.py:385-390 | `isoformat()` is injective on dates and datetimes together |
| Identity.UtcIso | cal_sync.py:56-73 | `_to_utc_iso` gives `""` for no value, and for a date its ISO text followed by the all-day suffix |
| Identity.UtcIsoMoments | cal_sync.py:66-70 | two datetimes render alike exactly when they denote the same UTC value |
| Identity.UtcIsoSameInstant | cal_sync.py:66-70 | the same instant written with different offsets renders alike |
| Identity.UtcIsoKindsDiffer | cal_sync.py:62-70 | an all-day value never renders like a timed one |
| Identity.NormRruleSorted | cal_sync.py:76-88 | `_norm_rrule` is the sorted `;`-join of the stripped non-empty parts |
| Identity.NormRruleSameParts | cal_sync.py:76-88 | two rules normalise alike exactly when they have the same parts, in any order |
| Identity.NormRruleIdempotent | cal_sync.py:76-88 | `_norm_rrule` is idempotent |
| Identity.ExdateValuesAll | cal_sync.py:97-101 | when every date renders, the loop keeps all of them, in order |
| Identity.NormExdateOrderFree | cal_sync.py:91-107 | when every date renders, the canonical EXDATE text ignores the order of the dates |
| Identity.ExdateValuesStop | cal_sync.py:97-104 | a date that cannot be rendered aborts the loop: the property's own text replaces it and every later date |
| Identity.StableKeyInjective | cal_sync.py:383-394 | for UIDs without `#`, the stable key determines UID and RECURRENCE-ID |
| Identity.StableKeyCollision | cal_sync.py:383-394 | with a `#` in the UID a plain event and a recurrence instance can share a key |
| Identity.MarkDescription | cal_sync.py:408-414 | the result always contains the marker; an empty description becomes the bare marker; a non-empty one is kept exactly when it already holds `" " + marker`, and otherwise gets it appended |
| Identity.MarkIdempotent | cal_sync.py:408-414 | on a non-empty description the marker rule is idempotent |
| Identity.MarkBareAppends | cal_sync.py:408-414 | on the bare marker the rule appends a second copy |
| Identity.HashFields | cal_sync.py:444-471 | the fields exist iff start and end render in UTC; they are eight or nine, the stable key first |
| Identity.HashFieldsSemantic | cal_sync.py:444-463 | two events give the same hashed fields iff they agree on every semantic field (key, title, description, location, start, end, rule, exceptions) |
| Identity.HashInputSemantic | cal_sync.py:444-463 | when no hashed field holds a bar, the digested text changes exactly when a semantic field changes |
| Identity.HashIgnoresMetadata | cal_sync.py:442-463 | the hash does not depend on created, last_modified, raw_data, source calendar, uid or the stored hash |
| Identity.HashInputInjective | cal_sync.py:461-462 | when no field contains a bar character, the double-bar-joined text determines the field list |
| Identity.HashInputAmbiguous | cal_sync.py:461-462 | a field containing a double bar can shift a boundary, so two different field lists join alike |
| Identity.ParseIcalEvent | cal_sync.py:367-440 | `None` iff there is no UID or a time cannot be rendered; otherwise the record keeps the UID, its key is `uid` or `uid#iso(rid)`, it is an instance iff it has a RECURRENCE-ID, its texts are normalised and its description marked, its times and raw text are kept, its rule and exceptions are normalised, and its hash is the hash of the record |
| Markers.MarkersShape | cal_sync.py:474 | every key `findall` captures is non-empty and free of `]` |
| Markers.MarkersSound | cal_sync.py:474 | every captured key comes from a complete `[SYNC_UID:key]` in the text |
| Markers.MatchMarker | cal_sync.py:474 | a complete marker with a non-empty key free of `]` is captured whole |
| Markers.MarkerAfterPlain | cal_sync.py:474 | a marker after text without `[` is the only key captured |
| Markers.MarkedDescriptionKeys | cal_sync.py:408-414 | a description marked with key `k` yields exactly `k` when the original has no `[` and `k` is non-empty and free of `]` |
| Markers.UnclosedSwallows | cal_sync.py:474 | an unclosed `[SYNC_UID:` earlier in the text swallows a later marker |
| Ledger.Entries | cal_sync.py:160-161 | the state's event dictionary holds every listed key and only those |
| Ledger.LoadState | cal_sync.py:157-175 | no file gives `{last_sync: None, events: {}}`; a file keeps its `last_sync` and either all its events or none |
| Ledger.MigrationInspectsFirst | cal_sync.py:163-172 | only the first entry is inspected: without `summary` every entry is dropped, with one every entry is kept |
| Ledger.DetectChanges | cal_sync.py:630-678 | `None` exactly when an entry of a current key lacks a hash (Python raises); added and modified together hold at most one element per current event |
| Ledger.ChangesClassify | cal_sync.py:641-676 | a current event is added iff its key is not in the ledger, modified iff it is there with a different hash, never both |
| Ledger.ChangesFromCurrent | cal_sync.py:641-676 | only current events are added or modified |
| Ledger.DeletedExactly | cal_sync.py:650-661 | the deletions are exactly the ledger keys no current event has, with `uid` and `summary` from the entry, defaulting to the key |
| Ledger.NothingDeleted | cal_sync.py:650-661 | when nothing is deleted every ledger key is a current key |
| Ledger.ChangesExample | cal_sync.py:630-678 | ledger {A, B} against events {A, C} with A unchanged: C added, B deleted, nothing modified |
| Ledger.ExtractSyncKeysSpec | cal_sync.py:465-478 | a key is extracted iff some description yields it |
| Ledger.ExtractedKeysSound | cal_sync.py:465-478 | every extracted key is non-empty, free of `]` and comes from a whole marker in some description |
| Ledger.MarkedRowFound | cal_sync.py:465-478 | a listed event marked with key `k` is recognised by `k` |
| Ledger.FirstWithKey | cal_sync.py:505 | the `next(...)` lookup returns a current event with the key |
| Ledger.RecoverySpec | cal_sync.py:480-519 | an event is recovered iff the listing was read, its key is in the ledger and among the current keys, no marker names it, and it is the first current event with that key |
| Ledger.RecoveryExcludes | cal_sync.py:494-513 | an event marked in the listing, or with a key the ledger lacks, is never recovered |
| Ledger.WithUrl | cal_sync.py:292-299 | the first calendar with the URL, or none when no calendar has it |
| Ledger.ByIndexSpec | cal_sync.py:276-282 | index selection picks calendars of the account, at most one per index; when every index is in range it picks `calendars[i-1]` for each index `i`, in order |
| Ledger.ByIndexSkips | cal_sync.py:276-282 | an index out of range is skipped: the selection is as if it were absent |
| Ledger.SelectionPrecedence | cal_sync.py:273-303 | explicit indices win over configured ones, which win over the URL, which falls back to all calendars when unmatched; with no choice every calendar is used |
| Icloud.EscapeIsCharMap | icloud_integration.py:467-481 | the replace chain equals the per-character escape map |
| Icloud.EscapeNoControl | icloud_integration.py:467-481 | the escaped text holds no raw newline, carriage return or tab |
| Icloud.EscapeRoundTrip | icloud_integration.py:467-481 | reading the escaped text back gives the original |
| Icloud.EndAfter | icloud_integration.py:454-463 | a datetime start at midnight ends at 23:59:59 that day; any other ends one hour later with the same zone and microsecond; it overflows exactly from 9999-12-31 23:00 on |
| Icloud.EnsureEndDate | icloud_integration.py:439-465 | a given end or a falsy start is returned unchanged; a date start ends at 23:59:59 that day, naive; a datetime start, or a text that parses, ends as `EndAfter` says; a text that does not parse gets no end |
| Icloud.CompletedEndAfterStart | icloud_integration.py:441-463 | a completed end is a valid datetime; for a date start it is 23:59:59 that day, naive; for a datetime start it keeps the zone and microsecond and lies after the start by less than a day |
| Icloud.EnsureEndDateOverflow | icloud_integration.py:461 | a start at 23:00 or later on 9999-12-31 that is not at midnight cannot be completed |
| Icloud.DateLiteral | icloud_integration.py:434-435 | `date "YYYY-MM-DD HH:MM:SS"` is 26 characters long |
| Icloud.FormatForScript | icloud_integration.py:406-437 | a falsy value gives `None`; a date formats as that day at 00:00:00; a datetime as its own date, hour, minute and second; a text formats iff it parses |
| Icloud.FormatDropsOffset | icloud_integration.py:430-431 | the offset is dropped, not converted |
| Icloud.FormatIsoText | icloud_integration.py:416-423 | a datetime and its `isoformat()` text format alike |
| Icloud.RunOutcome | icloud_integration.py:31-51 | success iff the exit status is 0, and then the output is stripped; a failed exit carries its error text, a timeout the timeout text and any other exception its message |
| Icloud.PrepareDates | icloud_integration.py:115-137 | raises exactly when completing the end overflows; no script exactly when the start or the completed end is falsy or cannot be formatted; when ready, the start literal formats the start and the end literal the completed end |
| Icloud.CreateScriptFor | icloud_integration.py:115-155 | a script is run iff both dates are ready; it targets the integration's calendar and carries the prepared start and end literals |
| Icloud.CreateScriptFields | icloud_integration.py:139-147 | the script's title, description and location unescape to the event's and hold no raw newline |
| Icloud.CreateEvent | icloud_integration.py:112-161 | raises iff the end overflows; a script runs iff the create script can be built; with a script, success iff its exit status is 0 and its stripped output holds no `Error:` |
| Icloud.CreateWithoutDates | icloud_integration.py:123-137 | a missing or unformattable start or end fails without running a script |
| Icloud.UpdateEvent | icloud_integration.py:163-210 | as `create_event` with the update script, and success also needs output without `not found` |
| Icloud.UpdateScriptFor | icloud_integration.py:163-203 | the update script exists iff the create script does, and carries the same escaped fields and date literals |
| Icloud.DeleteBySummary | icloud_integration.py:247-281 | success iff the escaped-title delete script exits 0 with output holding `Deleted` and no `Error:` |
| Icloud.ClearAllEvents | icloud_integration.py:364-387 | success iff the clear script exits 0 with output holding no `Error:` |
| Icloud.ErrorReplyFails | icloud_integration.py:157-161 | a reply containing `Error:` never counts as a success of create, update, delete or clear |
| Icloud.TimeoutFails | icloud_integration.py:47-49 | a timed-out script never counts as a success |
| Icloud.ParseLine | icloud_integration.py:327-338 | a kept segment contains a bar character, and its five fields are stripped |
| Icloud.LineRows | icloud_integration.py:327-338 | a segment gives at most one event |
| Icloud.Classify | icloud_integration.py:343-362 | a failure classification never yields events |
| Icloud.ListingOf | icloud_integration.py:312-362 | a failed run, or a result containing `Error:`, is classified as a failure |
| Icloud.ListingTimeout | icloud_integration.py:347-353 | a timed-out listing is `"TIMEOUT"`, never an empty calendar |
| Icloud.LineOfParts | icloud_integration.py:327-338 | a segment made of bar-free parts gives its first five parts stripped, or nothing when there are fewer than five |
| Icloud.LineWithoutBar | icloud_integration.py:328 | a segment without a bar character is dropped |
| Icloud.ParseLinesAppend | icloud_integration.py:327-338 | segments are parsed one by one, in order, at most one event each |
| Icloud.RowTextParses | icloud_integration.py:298-338 | a rendered row of plain fields parses back to the row |
| Icloud.BodySplit | icloud_integration.py:298-305 | splitting the rendered rows at the triple-bar separator gives back each rendered row |
| Icloud.CountReplace | icloud_integration.py:320 | `("COUNT:" + d).replace("COUNT:", "") == d` for digits |
| Icloud.HeaderParse | icloud_integration.py:316-338 | a text made of the `COUNT:` header, the count, the `EVENTS:` separator and a body is parsed as that body |
| Icloud.ListingRoundTrip | icloud_integration.py:283-342 | a listing built as the script builds it reads back to its rows in order, when every field is plain and the text nowhere says `Error:` |
| Icloud.ErrorInTitleLosesListing | icloud_integration.py:313 | an event titled with `Error:` makes the whole listing read as a failure |
| Icloud.EmptyFieldsLoseRow | icloud_integration.py:298-338 | a row with empty description and location is lost on reading back |
| CalSync.FieldsOf | icloud_integration.py:115 | the event as `create_event` reads it has a truthy start iff the event has one |
| CalSync.RunAppend | cal_sync.py:551-617 | carrying out two lists of work in turn is carrying out their concatenation |
| CalSync.RunPhases | cal_sync.py:551-617 | a pass is its four loops in order: added, modified, deleted, recovered |
| CalSync.RunStopsAtRaise | cal_sync.py:626-628 | an exception ends the pass: nothing after it is carried out |
| CalSync.UpsertSettles | cal_sync.py:551-589 | a successful create records the event's hash, so the next diff finds it neither new nor modified; a failed one leaves the ledger |
| CalSync.ModifyIgnoresDelete | cal_sync.py:566-589 | a modified event is created whatever the title delete answered |
| CalSync.StepEffects | cal_sync.py:593-617 | a deletion removes its entry iff the delete is confirmed; a recovery only stamps `last_sync`, never the hash or the key set |
| CalSync.RunUntouched | cal_sync.py:551-617 | entries whose key no unit of work names are kept as they were |
| CalSync.RunCounts | cal_sync.py:551-617 | each unit of work counts at most one success and runs at most two scripts |
| CalSync.AddWithoutStart | cal_sync.py:551-563 | through the AppleScript integration, an added event without a start runs nothing and changes nothing |
| CalSync.RatioWhole | cal_sync.py:727 | a non-empty set whose members are all found has ratio 1 |
| CalSync.VerifyIgnoresCount | cal_sync.py:720-769 | the verdict depends on which events are listed, not on how many times or in what order |
| CalSync.CompleteListingPasses | cal_sync.py:727-769 | a listing carrying every current marker and title passes for any threshold up to 1 |
| CalSync.NoMarkersFail | cal_sync.py:727-744 | with no current key among the markers, verification fails for any positive threshold |
| CalSync.BlankTitlesFail | cal_sync.py:747-766 | when every title is blank the title ratio is 0 and verification fails |
| CalSync.Restrict | cal_sync.py:714-717 | orphan pruning keeps exactly the ledger keys the current events have, with their entries |
| CalSync.LedgerOfKeys | cal_sync.py:795-806 | the rebuilt ledger holds exactly the current keys |
| CalSync.LedgerUpToLast | cal_sync.py:796-806 | each key holds the fresh entry of the last event with it |
| CalSync.ResyncSettles | cal_sync.py:795-806 | right after a rebuild the diff reports nothing added or deleted, and nothing modified when keys are distinct |
| CalSync.AfterVerify | cal_sync.py:680-718 | once the listing is read, `verify_sync` keeps `last_sync` and only ledger keys it already had; the pruning itself is given by `Restrict` |
| CalSync.AfterResync | cal_sync.py:795-810 | when `force_resync` gets past its create loop, the ledger holds exactly the current keys and the saved state is the live one; otherwise nothing changes |
| CalSync.VerdictLeavesNoOrphans | cal_sync.py:880-888 | after a successful verification, or a successful resync fallback, every ledger key belongs to a current event |
| CalSync.FailedVerdictPrunes | cal_sync.py:712-718 | a listing that is read but fails, followed by a resync that raises, still leaves the pruned ledger |
| CalSync.CreateUpToStops | cal_sync.py:787-793 | once a create raises, the remaining events are not attempted |
| CalSync.MissingEvents | cal_sync.py:502-513 | the loop collects, once per key, the first current event of each ledger key no marker names |
| CalSync.Syncer.constructor | cal_sync.py:113-121 | the state is what `load_sync_state` returns |
| CalSync.Syncer.SyncToIcloud | cal_sync.py:521-628 | no client or a missing method fails with no change; no work succeeds with no change; otherwise the ledger is the pass over the four lists, saved unless it raised, and the result is "some success" |
| CalSync.Syncer.PushAdded | cal_sync.py:551-563 | the added loop leaves the ledger the pass over the added events gives |
| CalSync.ModifyLoop | cal_sync.py:566-589 | deleting by title and then creating each modified event, one by one, ends in the state the pass over the modified events gives, stopping at an exception |
| CalSync.Syncer.PushModified | cal_sync.py:566-589 | the modified loop leaves the ledger the pass over the modified events gives |
| CalSync.Syncer.PushDeleted | cal_sync.py:593-603 | the deleted loop leaves the ledger the pass over the deletions gives |
| CalSync.Syncer.PushRecovered | cal_sync.py:607-617 | the recovery loop leaves the ledger the pass over the recovered events gives |
| CalSync.Syncer.DetectIcloudDeletions | cal_sync.py:480-519 | without a client or listing method `[]`; otherwise the recovery set, one event per key, the ledger untouched |
| CalSync.DropOrphans | cal_sync.py:712-717 | deleting the orphaned keys one by one leaves exactly the entries whose keys are among the given ones, with their values |
| CalSync.Syncer.PruneOrphans | cal_sync.py:716-717 | the ledger becomes its restriction to the given keys |
| CalSync.Syncer.VerifySync | cal_sync.py:680-773 | an unreadable listing fails with the ledger kept; a read one prunes orphans first (saving only when there were some) and then judges coverage and titles; the result is the listing verdict, and success leaves only current keys |
| CalSync.Syncer.RecreateAll | cal_sync.py:787-793 | every current event is created in order, stopping at the first exception |
| CalSync.Syncer.RebuildLedger | cal_sync.py:795-806 | the ledger becomes one fresh entry per current event, a later duplicate overwriting an earlier one |
| CalSync.Syncer.ForceResync | cal_sync.py:775-823 | no client or no clear method fails with no change; a create that raises stops the resync with the ledger kept; otherwise the ledger is rebuilt from the current events whatever the creates answered and saved, and the result is the verification of the next listing |
| CalSync.Syncer.SyncCalendars | cal_sync.py:825-899 | a failed connection fails with no change; no events succeeds with no change; a hashless entry fails with no change; otherwise the deletions and recovery set are those of the diff and the listing; no change succeeds without touching the ledger; changes are pushed, and after a successful push the result is the listing verdict or else the resync verdict, with the final state given by `AfterVerdict` |
| CalSync.Syncer.PushAndVerify | cal_sync.py:877-892 | a missing method fails with no change; a push that raises keeps `last_sync` and the saved state; one that succeeds nowhere fails, stamped and saved; after a successful push, the result is the listing verdict or else the resync verdict, and the final ledger, `last_sync` and saved state are what verification and the resync leave (`AfterVerdict`) |
| CalSync.Syncer.VerifyThenResync | cal_sync.py:881-888 | the result is the verdict on the next listing or, failing it, the verdict of the resync that follows; the new ledger, `last_sync` and saved state are what verification and the resync leave (`AfterVerdict`) |
| Eventkit.NormalizeMinutes | mac_eventkit_bridge.py:58-86 | the minute becomes a multiple of 5 and second and microsecond 0, in the same zone |
| Eventkit.NormalizeNearest | mac_eventkit_bridge.py:68-86 | the result is on the five-minute grid and at most two minutes from the input |
| Eventkit.NormalizeFails | mac_eventkit_bridge.py:78-83 | only a carry out of 9999-12-31 23:58 or 23:59 fails |
| Eventkit.NormalizeIdempotent | mac_eventkit_bridge.py:58-86 | rounding a rounded time changes nothing |
| Eventkit.NormalizeExamples | mac_eventkit_bridge.py:66-86 | 09:29 → 09:30, 09:44 → 09:45, 09:59 → 10:00 |
| Eventkit.NormalizeCarriesDay | mac_eventkit_bridge.py:78-83 | 23:58 carries into the next day's midnight |
| Eventkit.FreqName | mac_eventkit_bridge.py:131-139 | an unknown frequency code is read as weekly |
| Eventkit.DayName | mac_eventkit_bridge.py:152-161 | a day name has two letters, and an unknown day code is read as Monday |
| Eventkit.RruleParts | mac_eventkit_bridge.py:121-174 | the text is empty iff there is no rule; otherwise it starts with `FREQ=` and splits at `;` into the first rule's parts |
| Eventkit.RulePartsShape | mac_eventkit_bridge.py:141-164 | `FREQ` comes first; `INTERVAL` appears iff the interval exceeds 1; `BYDAY` appears iff the rule is weekly with days |
| Eventkit.PartsWithoutSemicolon | mac_eventkit_bridge.py:141-174 | no part holds a `;` |
| Eventkit.EkKey | mac_eventkit_bridge.py:391-407 | a recurring occurrence is keyed `uid#iso(occurrence)` |
| Eventkit.LocalRendersInUtc | mac_eventkit_bridge.py:430-431 | a rounded local time always renders in UTC |
| Eventkit.RecordShape | mac_eventkit_bridge.py:415-439 | the record keeps the UID, has no EXDATE and the raw text `EventKit:uid`, its description holds its marker, and its times are on the grid and render in UTC |
| Eventkit.WithHash | mac_eventkit_bridge.py:442 | the hash set on the record is the record's own hash |
| Eventkit.ConvertShape | mac_eventkit_bridge.py:381-448 | no identifier gives `None`, and every other event converts to its record with the hash `generate_event_hash` computes for it |
| Eventkit.ConvertKey | mac_eventkit_bridge.py:391-407 | an occurrence gets the key `parse_ical_event` gives that instance and is flagged as one; any other event is keyed by its item identifier or by `MAC:` and the fallback |
| Eventkit.SelectByTitleSpec | mac_eventkit_bridge.py:329-343 | a calendar is selected iff its stripped title equals a stripped name, as often as the store lists it, and no match selects nothing |
| Eventkit.DictZipSpec | mac_eventkit_bridge.py:225 | `dict(zip(...))` has the keys of the zipped prefix, each with the value of its last occurrence |
| Eventkit.ZipUpToValues | mac_eventkit_bridge.py:225 | with distinct keys every zipped value survives |
| Eventkit.SelectByIndicesDistinct | mac_eventkit_bridge.py:225-246 | with distinct indices, selecting by indices is selecting by names |
| Eventkit.SelectByIndicesRepeated | mac_eventkit_bridge.py:225-246 | a repeated index keeps only its last name, so the earlier name's calendar is not selected |
| Batch.OverrideShape | batch_orchestrator.py:62-71 | the copy routes only the mapping's index, with no CalDAV, no names and no fallback, and names the target as the iCloud calendar; everything else is kept, and it fails iff there is no `icloud` section |
| Batch.OverrideForgetsEarlier | batch_orchestrator.py:62-71 | overriding a copy another mapping produced gives the same configuration as overriding the original |
| Batch.StateFileNoSpace | batch_orchestrator.py:81 | a state file name never holds a space |
| Batch.StateFileShared | batch_orchestrator.py:81 | two mappings share a state file iff they have the same index and targets equal once spaces become underscores |
| Batch.StateFileSpaceCollision | batch_orchestrator.py:81 | targets `a b` and `a_b` share a state file |
| Batch.Attempt | batch_orchestrator.py:52-111 | a mapping is invalid exactly when it is skipped |
| Batch.CountSuccesses | batch_orchestrator.py:48-120 | the counting loop returns the number of mappings that count |
| Batch.RunEventkitBatch | batch_orchestrator.py:15-134 | declines iff there is no non-empty list; raises iff an element is not an object; otherwise handles every mapping and counts its successes |
| Batch.SuccessesAtMostValid | batch_orchestrator.py:48-111 | successes are at most the valid mappings, which are at most all mappings |
| Batch.AllSucceed | batch_orchestrator.py:48-111 | when every valid mapping succeeds, every valid mapping counts |
| Batch.NoEventsCounts | batch_orchestrator.py:94-109 | a valid mapping whose source has no events counts in both modes once both connections succeed: force mode counts the empty source, incremental mode the `True` that `sync_calendars` returns |
| Batch.NoneCounted | batch_orchestrator.py:107-111 | outcomes that never count give no successes |
| Batch.NoIcloudSection | batch_orchestrator.py:71 | without an `icloud` section no mapping succeeds |
| Batch.AttemptAsWritten | batch_orchestrator.py:75 | as written, every valid mapping raises |
| Batch.AsWrittenCountsNothing | batch_orchestrator.py:75 | as written, no mapping ever succeeds |
| Batch.ForceOutcome | batch_orchestrator.py:84-101 | force mode as intended: never raises; counts iff both connections succeed and the source is empty or `force_resync` succeeds |
| Batch.ForceOutcomeAsWritten | batch_orchestrator.py:84-95 | force mode as written: raises exactly when both connections succeed, and never counts |
| Batch.ForceAsWrittenCountsNothing | batch_orchestrator.py:84-95 | as written, force mode counts no mapping, whatever the sources hold |
| Batch.ForceAttemptCounts | batch_orchestrator.py:84-109 | with the source events read, a valid mapping counts in force mode iff both connections succeed and the source is empty or the resync succeeds |
| Batch.BatchSummary | batch_orchestrator.py:137-163 | `None` iff there is no non-empty list; fails iff an element is not an object; otherwise mode `batch` with one entry per mapping |
| Batch.SummaryRoundTrip | batch_orchestrator.py:157-161 | the entries give back the batch list |
| Batch.GetBatchSummary | batch_orchestrator.py:137-163 | the appending loop builds the batch summary |

## Findings

| source | as written | input that shows it | evidently intended | confidence | as-written member | corrected member |
|---|---|---|---|---|---|---|
| batch_orchestrator.py:75 | `CalSync(config_file=..., caldav_indices=[], eventkit_calendars=[], eventkit_indices=[...])`, but `CalSync.__init__` (cal_sync.py:113) accepts only `config_file`. The `TypeError` is caught at line 113, so every valid mapping fails. | `eventkit_batch_map = [{"source_index": 1, "target_icloud_calendar_name": "Work"}]` with an `icloud` section: the count is 0 in both modes | build the syncer from the configuration file and let the copied configuration drive one sync per mapping, counting the ones that succeed | high; not executed | Batch.AsWrittenCountsNothing | Batch.RunEventkitBatch |
| batch_orchestrator.py:95 | in force mode, after both connections succeed, the orchestrator calls `syncer.get_source_events()`, which `CalSync` does not define; the `AttributeError` is caught and the mapping fails | any valid mapping run with `force_resync=True` whose CalDAV and iCloud connections succeed: it is never counted, even with an empty source | read the source events (`get_caldav_events`), count an empty source as done, and otherwise count the mapping iff `force_resync` succeeds | high; not executed | Batch.ForceAsWrittenCountsNothing | Batch.ForceAttemptCounts |

## Left out

- I/O: files, `json.load`, `save_sync_state` (modelled as the `saved` field), logging, `time.sleep` between batch mappings, and the scheduled and daemon loops.
- Connecting to CalDAV and iCloud (`connect_caldav`, `connect_icloud`): these are booleans passed to `Syncer.SyncCalendars`. The CalDAV fetch and icalendar parsing are out of scope too: a VEVENT is a record of optional fields, and RRULE arrives as its serialised text.
- Running AppleScript (`subprocess.run`): `bridge(n, script)` answers the n-th script run. Which events a script deletes or lists inside Calendar is not modelled.
- The EventKit store: access requests, fetching events in a time window, and turning NSDate into local time. An `EkEvent` holds local wall-clock values.
- Time zones other than fixed offsets; `datetime.now()`, which is the parameter `now` (one value per call); `uuid.uuid4()`, which is the parameter `fallback`.
- MD5: the parameter `md5`.
- Floating point: `verify_sync`'s ratios are exact reals. A ratio that rounding would put on the other side of a threshold is not modelled.
- Python set iteration order: deletions and the recovery loop go in an unspecified order (`CalSync.InSomeOrder`).
- Chrono.ParseIso: the forms of Python 3.7 to 3.10 only; the wider `fromisoformat` of Python 3.11 (basic format, week dates, `Z`) is not modelled. Offsets with non-zero seconds or microseconds are refused, because a `Tz` holds whole minutes.
- Chrono.Strftime: `%Y` for years below 1000 is written with four digits; platforms differ there.
- Eventkit.FormatRrule: the `except` path that returns `""` when an EventKit call raises is not reachable in the model.
- Exceptions the model does not raise: an `EkEvent` method raising in `_convert_eventkit_event_to_dict`; `get_existing_events` raising while parsing (only `int()` on a header of digits is modelled).
- `delete_event(uid)`, `_format_date`, `create_calendar`, `check_calendar_accessibility` and `sync_events`: none of them is called by the sync engine.
- Batch.RunEventkitBatch: a `source_index` or target that is neither null, an integer nor a string is not modelled, nor an `icloud` section that is present but not an object (the source raises `TypeError` there). In `RunEventkitBatch` the runner stands for the whole sync of one mapping; the force-mode steps themselves are modelled by `ForceOutcome` and `ForceOutcomeAsWritten`.
- CalSync.Syncer.SyncCalendars: `get_caldav_events` itself is not run; the current events are a parameter, and the calendar choice is `Ledger.SelectCalendars`.
- `detect_icloud_deletions` and `verify_sync` when the listing is `"TIMEOUT"` or `None`: the code hits an exception, so the model returns `[]` and `False`.
