# Tesseract: cache coherence, pagination, sessions and rate limits

A Dafny model of the stateful core of the Tesseract backend, with proofs of what that core is for:

- **Albums.** The albums table, the Redis cache in front of it, and the background goroutines that keep
  the cache up to date. `AlbumRuns` is the state machine (table, cache, commands still to be sent);
  `AlbumRepository` is the repository object whose methods are its steps; `AlbumCache` says when two
  schedules of the commands end alike; `AlbumSharing` and `AlbumLists` drop every assumption on order and add
  the shared flights and the lists; `CacheStore` puts the typed keys on one string-keyed store with the two-hop Lua lookup.
- **Lists.** `Pagination` (keyset cursor, limit+1 probe, walks over a table that changes), `AlbumAccess`
  (who sees what in a list and in a single get), `Cursor.dfy` (the encrypted cursor text), `CursorWalk` (a walk
  through cursor texts).
- **Sessions.** `TokenTable` (the refresh_tokens statements and their repository), `SessionProtocol` (any
  number of refresh calls interleaved, one statement or transaction a step), `SessionRetries` (a token presented
  again, or gone), `AuthService` (the service's methods, and the proof that a refresh left alone is one run of the
  protocol), `SessionRuns` (concrete runs).
- **Rate limit.** `RateLimit` (the script as a step on an expiring counter, and bounds over traces).

`AlbumTable` holds the table and its statements. `TextForms` says what keys, uuids and cursors look like.
`Common.dfy` holds results, positional digits and uuid text.

## What the proofs found

1. **Hydration can cache a deleted album.** A list reads ids first and rows second, and caches every row it
   fetched without asking whether it has been deleted meanwhile (repository.go:470-489); the read by id does
   ask (repository.go:119). `AlbumRuns.CoherenceOverRuns` proves that this is the only gap when commands keep
   commit order key by key: coherence holds throughout a run if and only if no hydration fetched a deleted
   row. `AlbumCounterexamples.LateHydrationServesDeletedAlbum` is a run in which the read by slug then serves
   the deleted album.
2. **Goroutines carry no order.** `AlbumCounterexamples.UnorderedTasksBreakCoherence` is a run that ends with
   a hidden album served as active and nothing pending. `AlbumCache.ScheduleIndependence` says exactly which
   schedules are harmless, and `AlbumSharing.SnapshotSafety` what survives any schedule.
3. **A flight by id does not name the user** (repository.go:109). Nobody is handed another user's album, but
   an owner who joins a stranger's flight is told that the album is missing: `AlbumSharing.SharedReadExactIff`
   says exactly when, over every run, and `AlbumCounterexamples.OwnerTurnedAway` is such a run.
4. **The grace period does not cover retries that overlap.** The project README promises that concurrent
   refreshes are not mistaken for theft. `SessionRetries.RetryIff` proves for every run that this holds for a
   retry that reads the token after it was consumed and fails for one that read it before: that one ends with
   every token of the user deleted, the new one included. `SessionRuns.OverlappingRefreshesLogOut` is such a
   run. The model follows the code.
5. **A token that goes away under a refresh turns the refresh into a wipe.** A refresh that has read its token
   and then cannot consume it takes that for theft, whatever the reason: a logout, a revocation, a cleanup that
   found the token expired. `SessionRetries.RaceIff` gives the exact condition over every run. In particular
   logging out all other devices while one of them is refreshing also ends the session that asked
   (`SessionRetries.RevokeOthersRace`, with a run in `SessionRuns.RevokeOthersLogsOutKept`), and so does a
   cleanup between the expiry check and the transaction (`SessionRetries.CleanupRaceIff`,
   `SessionRuns.CleanupLogsOut`).
6. **A list can show a version that the viewer may not see.** Missing rows are read by id alone, after the ids
   (repository.go:472), so an album made private in between is shown to a guest:
   `AlbumCounterexamples.LateHydrationShowsPrivateAlbum`. `AlbumLists.ShownPassIff` says exactly when.

## Assumptions

- Each SQL statement, each transaction and each Redis command or script is one atomic step.
- A cache command, once run, succeeds; `DropCommand` stands for one that never runs or fails.
- Ids of new rows and texts of new tokens are fresh, hashing is injective (a token is named by its hash),
  opening inverts sealing, and the random source does not fail.
- The database enforces its keys and unique indexes: methods that need them require them, every statement keeps
  them, and the session protocol proves them for every reachable state.
- One monotone clock serves the application, the database and Redis.
- The page size is at least 1 and limit+1 fits in 32 bits; windows last at least one second.
- `lag` in the rate limiter is 0 if the store drops a key at its expiry time and 1 if it keeps it through that
  millisecond; every bound is proved for both.

## Model

| member | source | states |
|---|---|---|
| AlbumTable.PutKeepsValid | internal/platform/database/migrations/00002_create_albums.sql:11-19 | a row the unique indexes let in leaves the table valid: no two live rows of a user share a slug, no two rows share a direct token |
| AlbumTable.SlugLookupUnique | internal/platform/database/queries/albums.sql:1-3 | the lookup by user and slug has one possible answer |
| AlbumTable.TokenLookupUnique | internal/platform/database/queries/albums.sql:9-11 | the lookup by direct token has one possible answer |
| AlbumTable.LookupsExact | internal/platform/database/queries/albums.sql:1-11 | the three lookups on the columns: by slug the undeleted row of that user and slug, by token the active undeleted row with it, by id the row of that user, and otherwise no rows |
| AlbumTable.RestoreExact | internal/platform/database/queries/albums.sql:134-156 | a permitted restore fails if and only if both the slug and its suffixed form are in use; otherwise the row is found again under its slug, which is the old one when that is free |
| AlbumTable.SuffixedExact | internal/platform/database/queries/albums.sql:147 | the suffixed slug is at most 246 characters of the old one, a hyphen and the suffix |
| AlbumTable.RestoreUndoesDelete | internal/platform/database/queries/albums.sql:120-156 | a deleted album is not found by slug, and restoring it at once gives back the same row, slug included, but for its update time |
| AlbumCache.SetAlbumEffect | internal/domain/albums/repository.go:551-557 | caching an album leaves its entity, its slug mapper and, with a token, its token mapper, and touches no other key |
| AlbumCache.InvalidateAlbumEffect | internal/domain/albums/repository.go:560-565 | invalidating an album removes those keys and no other |
| AlbumCache.ScheduleIndependence | internal/domain/albums/repository.go:292-297 | two schedules lead every cache to the same contents if and only if on each key their last commands leave the same thing |
| AlbumCache.KeyOrderSuffices | internal/domain/albums/repository.go:320-331 | any schedule that keeps the relative order of commands sharing a key ends in the cache of commit order |
| AlbumCache.RunForemost | internal/domain/albums/repository.go:394-400 | executing early a command that shares no key with those before it does not change where the commands lead |
| AlbumCache.DrainAfterLoss | internal/platform/cache/cache.go:47-63 | keys that expire before pending commands run can only be missing afterwards, never different |
| AlbumRuns.WriteShape | internal/platform/database/queries/albums.sql:61-165 | what each write may change: one row, of the same user; which writes start from or end in a live row; which keep the slug |
| AlbumRuns.WriteSucceedsIff | internal/platform/database/queries/albums.sql:61-165 | every write succeeds if and only if the requester is not deleted and owns the stored row, the row is deleted for a restore or purge and not for the others, and the slug and token it brings are free; which of the two errors comes otherwise |
| AlbumRuns.WriteReadBack | internal/platform/database/queries/albums.sql:61-156 | every write gives its row the requested columns and the time of the request, and changes no other column and no other row; the lookups then give the written row under its slug and token, and nothing under a slug or token that was given up |
| AlbumRuns.NextValid | internal/platform/database/migrations/00002_create_albums.sql:11-19 | every step of the state machine keeps the table's constraints |
| AlbumRuns.TaskCoherent | internal/domain/albums/repository.go:275-429 | the commands of each write, drained over a coherent cache, give a cache coherent with the table after the write |
| AlbumRuns.FetchCoherentIff | internal/domain/albums/repository.go:470-489 | the fills of a hydration keep the cache coherent if and only if every fetched row is live |
| AlbumRuns.StepCoherentIff | internal/domain/albums/repository.go:59-176 | one orderly step, be it a read, write, expiry or command, keeps the settled cache coherent if and only if it is not a hydration of a deleted row |
| AlbumRuns.CoherenceOverRuns | internal/domain/albums/repository.go:275-429 | over every orderly run with keys expiring at any moment: the cache after draining agrees with the table in every state if and only if no hydration fetched a deleted row |
| AlbumRuns.ReadBySlugExact | internal/domain/albums/repository.go:59-96 | the read by slug equals its SQL as soon as no pending command touches the keys it visits |
| AlbumRuns.ReadByIDExact | internal/domain/albums/repository.go:99-138 | the read by id equals its SQL as soon as no pending command touches the entity |
| AlbumRuns.ReadByDirectTokenExact | internal/domain/albums/repository.go:141-176 | the read by direct token equals its SQL whatever the token mappers hold, by uniqueness of the token |
| AlbumRuns.ReadsExactAtQuiescence | internal/domain/albums/repository.go:59-176 | at the end of an orderly run with nothing pending all three reads equal their SQL |
| AlbumCounterexamples.UnorderedTasksBreakCoherence | internal/domain/albums/repository.go:373-379 | from a coherent state, a run in which the commands of two writes change places ends with a stale album served and nothing pending |
| AlbumCounterexamples.LateHydrationServesDeletedAlbum | internal/domain/albums/repository.go:446-489 | from a coherent state in which the album is on the page of ids and not in the cache, a commit-order run in which it is deleted and then hydrated makes the read by slug serve it |
| AlbumSharing.InvThroughout | internal/domain/albums/repository.go:503-557 | under any order, loss or expiry, everything cached, pending or in flight is a version the table held, under a key of that version, and no album changes its owner |
| AlbumSharing.SnapshotSafety | internal/domain/albums/repository.go:59-176 | under any schedule every album a single read hands out is a version the table held; by slug it is the requested user's, by token it is active and carries the token, and by id the ownership check passes it exactly for the user to whom every version of it belongs |
| AlbumSharing.SnapshotSafetyEver | internal/domain/albums/repository.go:59-176 | the same in every world reached from a valid table and an empty cache |
| AlbumSharing.FlightKeepsAnswer | internal/domain/albums/repository.go:107-131 | a flight hands everyone who joins it what its leader read when it took off, whatever happens in between |
| AlbumSharing.SharedReadExactIff | internal/domain/albums/repository.go:107-131 | over every run, joining a flight by id gives what a read of one's own would have given when it took off if and only if the caller led it or did not own the album then; otherwise it fails |
| AlbumCounterexamples.OwnerTurnedAway | internal/domain/albums/repository.go:107-131 | a run from an empty table in which the owner joins a stranger's flight and is told that the album is missing |
| AlbumLists.ListSnapshotSafety | internal/domain/albums/repository.go:446-499 | under any schedule, with ids, entities and rows read in three different worlds, every album on a page of a user's list is a version the table held of an album on the page of ids and belongs to that user |
| AlbumLists.WalkExact | internal/domain/albums/repository.go:179-272 | the pages of a walk on a fixed table, laid end to end, are exactly the stored albums that belong on the list, in strictly descending order, so each once; for the list of any viewer and for the trash |
| AlbumLists.StableAlbumShownOnce | internal/domain/albums/repository.go:179-241 | an album whose sort key stays fixed and visible and whose row stays in the table is shown exactly once over a complete walk of hydrated pages, whatever the caches held and whatever else changed between any two reads |
| AlbumLists.ReachablePageStable | internal/domain/albums/repository.go:446-499 | under any schedule each page meets the conditions of that theorem for every album listed when its ids were read and still stored when its rows are |
| AlbumLists.StableAlbumOverRun | internal/domain/albums/repository.go:179-241 | over any run from a valid table and an empty cache, with ids, entities and rows of each page read at successive moments, an album listed under its key whenever ids are read and stored whenever rows are read is shown exactly once |
| AlbumLists.ShownPassIff | internal/domain/albums/repository.go:470-489 | with entities that agree with the table the rows come from, a live album on a page passes the check of the single get if and only if it is in the viewer's list of that table, whichever table the ids came from |
| AlbumLists.ShownPass | internal/domain/albums/handler.go:166-179 | a page whose ids and rows come from one table shows nothing that the single get would refuse |
| AlbumCounterexamples.LateHydrationShowsPrivateAlbum | internal/domain/albums/repository.go:470-489 | a run in which an album is made private between the two reads and the guest's page shows the private version |
| Pagination.SortedSpec | internal/platform/database/queries/albums.sql:27 | the ordered result of a query is strictly descending by date and id and holds exactly the visible keys |
| Pagination.PageSplits | internal/domain/albums/repository.go:438-444 | a page lists keys past its cursor, in order; what it leaves out is exactly what is past the next cursor; no next cursor means nothing is left out |
| Pagination.WalkDescends | internal/platform/database/queries/albums.sql:22-28 | whatever changes between requests, a walk lists keys in strictly descending order, so none twice, and only keys that were visible |
| Pagination.StableKeyListedOnce | internal/domain/albums/repository.go:179-272 | a key that stays visible during a complete walk is listed exactly once, whatever else changes and whatever limits are used |
| Pagination.WalkEnds | internal/domain/albums/repository.go:431-444 | on a fixed table following cursors ends |
| Pagination.FixedTableWalk | internal/domain/albums/repository.go:431-444 | on a fixed table a walk with any limits lists every visible key, in order |
| Pagination.WalkComplete | internal/domain/albums/repository.go:431-444 | with one limit the pages laid end to end are the sorted visible keys, all but the last are full, and there is one page for no keys and otherwise as many as n keys fill |
| AlbumAccess.ListedMembers | internal/domain/albums/handler.go:166-179 | exactly which keys the list shows a viewer: the owner's branch or the visibility predicate |
| AlbumAccess.GetAvailableExact | internal/domain/albums/service.go:35-40 | a found album is handed to its owner always, and to others only while it is active and is public or is shared and names them; the levels by their names |
| AlbumAccess.CanAccessExact | internal/domain/shared/types/access.go:8-28 | access is open to the owner, at level public to all, at level shared to the emails listed, at any other level to no one else |
| AlbumAccess.ClampLimit | internal/domain/albums/service.go:80-83 | the page size equals any requested size in range and is the full one otherwise |
| AlbumAccess.ListAndGetAgree | internal/domain/albums/service.go:27-41 | for every viewer and every walk, a live album is listed if and only if getting it by its slug succeeds |
| AlbumAccess.ListedAreLive | internal/platform/database/queries/albums.sql:13-42 | a walk over a fixed table lists nothing but live albums of the user |
| AlbumRepository.HydrationRefinesQuery | internal/domain/albums/repository.go:446-499 | with coherent entities, however many are cached, a hydrated page equals reading every id from the table; the order is that of InOrderIndexed |
| AlbumRepository.InOrderIndexed | internal/domain/albums/repository.go:491-497 | the j-th album of a page is the one found for the j-th of the ids that have one |
| AlbumRepository.MissesIffAbsent | internal/domain/albums/repository.go:461-468 | with coherent entities the ids to query are those not in the cache |
| AlbumRepository.ListKeysExact | internal/platform/database/queries/albums.sql:13-42 | the keys of a viewer's list on the columns: owner, deletion, activity, level of access by name, and the shared emails |
| AlbumRepository.TrashKeysExact | internal/platform/database/queries/albums.sql:43-54 | the keys of the trash on the columns: the user's own deleted rows under their time of deletion |
| AlbumRepository.PageIsExact | internal/domain/albums/repository.go:438-444 | a page read from the table holds exactly the stored albums that belong on the list, come after the cursor and not after the next one, strictly descending by date and id; a next cursor comes only with a full page and is its last album |
| AlbumRepository.PresentIsListed | internal/domain/albums/repository.go:491-497 | an album still in the table when its page's rows are read is in the hydrated result, whatever the cache held |
| AlbumRepository.Repository.SelectBySlug | internal/platform/database/queries/albums.sql:1-3 | finds the live row with that user and slug, or reports none |
| AlbumRepository.Repository.SelectByDirectToken | internal/platform/database/queries/albums.sql:9-11 | finds the active live row with that token, or reports none |
| AlbumRepository.Repository.SelectByIDs | internal/platform/database/queries/albums.sql:56-59 | returns each requested id that is stored, once, in no promised order |
| AlbumRepository.Repository.SelectKeys | internal/platform/database/queries/albums.sql:13-54 | returns the first keys past the cursor of the descending order, up to the limit |
| AlbumRepository.Repository.GetBySlug | internal/domain/albums/repository.go:59-96 | answers as the state machine's read by slug does, and queues the album for the cache after a miss, and nothing otherwise |
| AlbumRepository.Repository.GetByID | internal/domain/albums/repository.go:99-138 | answers as the state machine's read by id does, and queues the album for the cache after a miss unless it is deleted, and nothing otherwise |
| AlbumRepository.Repository.GetByDirectToken | internal/domain/albums/repository.go:141-176 | answers as the state machine's read by token does, and queues the album for the cache after a miss, and nothing otherwise |
| AlbumRepository.Repository.Create | internal/domain/albums/repository.go:275-300 | is the machine's step and succeeds exactly for a requester, row and columns that allow it, with the statement's error if not; success stores the returned row under a new id and queues it for the cache; failure changes nothing |
| AlbumRepository.Repository.Update | internal/domain/albums/repository.go:303-334 | is the machine's step and succeeds exactly for a requester, row and columns that allow it, with the statement's error if not; success returns the album now stored under that id, and queues it after the unlinking of a slug given up; failure changes nothing |
| AlbumRepository.Repository.UpdateDirectToken | internal/domain/albums/repository.go:337-360 | is the machine's step and succeeds exactly for a requester, row and columns that allow it, with the statement's error if not; success returns the new token, now stored; the old token's mapper is gone and nothing else of the cache; failure changes nothing |
| AlbumRepository.Repository.ToggleActive | internal/domain/albums/repository.go:363-382 | is the machine's step and succeeds exactly for a requester, row and columns that allow it, with the statement's error if not; success returns the id of the album, which has the requested state and is queued for the cache; failure changes nothing |
| AlbumRepository.Repository.Delete | internal/domain/albums/repository.go:385-403 | is the machine's step and succeeds exactly for a requester, row and columns that allow it, with the statement's error if not; success returns the id of the album, whose row is deleted and whose keys are queued to be unlinked; failure changes nothing |
| AlbumRepository.Repository.Restore | internal/domain/albums/repository.go:406-416 | is the machine's step and succeeds exactly for a requester, row and columns that allow it, with the statement's error if not; success returns the id of the album, whose row is live again; nothing is sent to the cache; failure changes nothing |
| AlbumRepository.Repository.Purge | internal/domain/albums/repository.go:419-429 | is the machine's step and succeeds exactly for a requester, row and columns that allow it, with the statement's error if not; success returns the id of the album, whose row is gone; nothing is sent to the cache; failure changes nothing |
| AlbumRepository.Repository.SendPending | internal/domain/albums/repository.go:292-297 | a goroutine sends one of the commands, in whatever order |
| AlbumRepository.Repository.HydrateAlbumsList | internal/domain/albums/repository.go:431-500 | cuts the probe, queries only ids the cache did not have, queues a fill for each fetched row, and lists the j-th album found under the j-th id that has one |
| AlbumRepository.Repository.CollectCached | internal/domain/albums/repository.go:446-459 | the map holds exactly the cached albums of the page, and nothing else |
| AlbumRepository.Repository.FindMissing | internal/domain/albums/repository.go:461-468 | the ids to query are exactly those of the page that the cache lacks |
| AlbumRepository.Repository.RestoreOrder | internal/domain/albums/repository.go:491-497 | the j-th album is that of the j-th id that has one |
| AlbumRepository.Repository.ListAvailable | internal/domain/albums/repository.go:179-209 | one page of the available list; with coherent entities the albums on the page are exactly those that belong there by their columns, newest first; it is the machine's hydration step for exactly the listed ids that the cache lacks and the table has |
| AlbumRepository.Repository.ListOwned | internal/domain/albums/repository.go:212-241 | one page of the owned list; with coherent entities the albums on the page are exactly those that belong there by their columns, newest first; it is the machine's hydration step for exactly the listed ids that the cache lacks and the table has |
| AlbumRepository.Repository.ListTrashed | internal/domain/albums/repository.go:244-272 | the page holds exactly the user's own deleted albums after the cursor and not after the next one, latest deletion first |
| AlbumRepository.Repository.AvailableList | internal/domain/albums/handler.go:146-188 | the page that belongs to the viewer, of the requested size or else the default; with coherent entities the albums on the page are exactly those that belong there by their columns, newest first; it is the machine's hydration step for exactly the listed ids that the cache lacks and the table has |
| Uuids.ToStringInjective | internal/domain/albums/repository.go:503-507 | different uuids have different texts |
| Uuids.RoundTrip | internal/platform/cursor/cursor.go:108-112 | parsing the text of a uuid gives it back |
| TextForms.UuidText | internal/domain/albums/repository.go:505-507 | a uuid is written in lower-case hexadecimal, most significant digit first, in groups of 8, 4, 4, 4 and 12 |
| TextForms.CacheKeys | internal/domain/albums/repository.go:48-52 | the texts of the three kinds of key, by their prefixes |
| CacheStore.KeyTextInjective | internal/domain/albums/repository.go:48-52 | entity, slug-mapper and token-mapper texts are injective and pairwise disjoint, even for slugs with colons in them |
| CacheStore.SetSimulates | internal/platform/cache/cache.go:48-63 | setting a key text acts as setting the typed key and disturbs no other |
| CacheStore.UnlinkSimulates | internal/platform/cache/cache.go:66-68 | unlinking key texts acts as unlinking the typed keys |
| CacheStore.ScriptSimulates | internal/domain/albums/lua/get_album_by_mapper.lua:1-11 | the script on texts finds what the typed two-hop lookup finds, and reports a missing mapper exactly when it is missing |
| CacheStore.BatchSimulates | internal/platform/cache/cache.go:76-102 | each slot of a batch read, and so a single get of an entity, is the typed lookup of its id |
| CacheStore.OtherKeysApart | internal/domain/users/repository.go:38-39 | whatever is written or removed under the keys of users or of the rate limiter leaves the album keys as they are |
| CacheStore.Manager.MGetItems | internal/platform/cache/cache.go:76-102 | one slot for each key, in order, empty where the key is missing or does not parse |
| CacheStore.Manager.SetAlbumToCache | internal/domain/albums/repository.go:551-557 | the text commands for caching an album drain the typed ones |
| CacheStore.Manager.InvalidateAlbumCache | internal/domain/albums/repository.go:560-565 | the text commands for invalidating an album drain the typed ones |
| Base64.RoundTrip | internal/platform/cursor/cursor.go:56 | decoding URL-safe base64 inverts encoding for every byte string (section 5 of RFC 4648) |
| TextForms.Alphabet | internal/platform/cursor/cursor.go:56 | the URL-safe alphabet (section 5 of RFC 4648) |
| TextForms.SextetsSpell | internal/platform/cursor/cursor.go:56 | the four numbers of a group spell in base 64 what its three bytes spell in base 256 |
| Timestamps.RoundTrip | internal/platform/cursor/cursor.go:43 | parsing inverts formatting for every date with a four-digit year and a whole-minute offset, to the nanosecond (section 5.6 of RFC 3339) |
| TextForms.TimestampText | internal/platform/cursor/cursor.go:43 | where each field and separator of a formatted timestamp stands |
| TextForms.DayMoments | internal/domain/albums/repository.go:191 | moments a day apart differ by 24 hours, within months, over the end of February in leap and other years and over the end of any year |
| Cursors.RoundTrip | internal/platform/cursor/cursor.go:41-115 | parsing an encoded cursor gives exactly the timestamp and the uuid, for every nonce |
| TextForms.CursorBytes | internal/platform/cursor/cursor.go:46-56 | the bytes of a cursor are its nonce and then the sealed text of timestamp, bar and id |
| TextForms.CursorRefused | internal/platform/cursor/cursor.go:61-82 | the empty cursor stands for the beginning; one that is not base64, too short or does not open is refused |
| CursorWalk.TextWalkIsWalk | internal/domain/albums/repository.go:179-272 | a walk through cursor texts, from the empty one on, is the walk through keys: no cursor is refused and the same keys are listed, whatever the table does meanwhile |
| TokenTable.CleanupInvisible | internal/platform/database/queries/tokens.sql:16-20 | cleanup changes nobody's list of active sessions, order included, now or later, and removes no row that is neither expired nor long consumed |
| TokenTable.CleanupExact | internal/platform/database/queries/tokens.sql:34-37 | cleanup keeps, unchanged, exactly the rows that have not expired and were not consumed more than 24 hours ago |
| TokenTable.ActiveExact | internal/platform/database/queries/tokens.sql:16-20 | the active sessions are the user's rows that are unconsumed and expire later |
| TokenTable.DeletionsExact | internal/platform/database/queries/tokens.sql:22-32 | which rows each of the three deletions leaves, all unchanged |
| TokenTable.Repository.GetActiveForUser | internal/domain/tokens/repository.go:51-53 | lists each active session of the user once, newest first |
| TokenTable.Repository.Create | internal/domain/tokens/repository.go:28-37 | succeeds exactly when the hash and the id are in no row, and then adds one row with the given hash, id, user and expiry, unconsumed and created now; otherwise changes nothing |
| TokenTable.ConsumeOnce | internal/platform/database/queries/tokens.sql:11-14 | a token is consumed once: afterwards it is unusable, consuming it again at any time changes nothing, its date included, and no other token is touched |
| TokenTable.Repository.DeleteByIDAndUser | internal/domain/tokens/repository.go:56-68 | succeeds exactly when the user has a session of that id, deletes it and returns its hash; otherwise reports a bad id and changes nothing |
| TokenTable.Repository.ReplaceInTransaction | internal/domain/tokens/repository.go:89-122 | succeeds exactly for a stored unconsumed token and an unused hash and id; then the old row is consumed now, the new one has its columns and no other row changes; otherwise nothing changes; which error is returned when |
| SessionProtocol.NextKeepsInv | internal/platform/auth/service.go:112-175 | every step of every interleaving keeps the invariant: hashes and ids are unique, only the newest token of a family can be unconsumed, and consumed rows carry their first consumption time |
| SessionProtocol.SingleLiveToken | internal/platform/database/queries/tokens.sql:11-14 | in every reachable state each login family has at most one unconsumed row, and of all calls presenting one token at most one gets a new pair |
| SessionProtocol.SingleLiveTokenEver | internal/platform/database/migrations/00003_create_refresh_tokens.sql:3-14 | the same in every state reached from the one with no tokens and no calls, where hashes and ids are unique too |
| SessionProtocol.RotationExact | internal/domain/tokens/repository.go:98-121 | a successful transaction hands the family's live token on to the new hash, with the user, the expiry and the creation time it should have; the old row stays, consumed now; every other row, its family, and whether any family lives, are as they were |
| SessionProtocol.FamilyDeathPermanent | internal/platform/auth/service.go:127-163 | a family with no unconsumed row never gets one again, whatever is in flight |
| SessionProtocol.WipeExact | internal/platform/auth/service.go:139-158 | a wipe ends for good every family of the user, and no other |
| SessionProtocol.LogoutExact | internal/platform/auth/service.go:84-87 | the statement itself ends for good the family whose live token is presented, and nothing else; what a refresh under way then does is RaceIff |
| SessionProtocol.RevokeExact | internal/platform/auth/service.go:96-103 | the statement itself ends for good the family whose live row has that id and that user, and nothing else; what a refresh under way then does is RaceIff |
| SessionProtocol.RevokeEndsOne | internal/domain/tokens/repository.go:56-68 | one revocation ends at most one family |
| SessionProtocol.RevokeOthersExact | internal/platform/auth/service.go:106-109 | the statement itself ends for good every family of the user but that of the live token presented, and no other user's; what a refresh under way then does is RevokeOthersRace |
| SessionProtocol.ConsumptionIsFinal | internal/platform/database/queries/tokens.sql:11-14 | over every run, a consumed row stays consumed with its first consumption time |
| SessionProtocol.GraceExact | internal/platform/auth/service.go:128-143 | a call that read a consumed row decides by the clock and the first consumption alone, five seconds apart, without touching the table |
| SessionRetries.RetryIff | internal/platform/auth/service.go:127-162 | over every run with anything in between, a call whose token has been consumed or deleted never gets a pair, and unless the token has expired it is told that the refresh failed if and only if it read the row unconsumed, every family the user had being dead by then; within the grace period of a consumption it is told to retry if and only if it read the row consumed |
| SessionRetries.RetryStep | internal/platform/auth/service.go:139-158 | at every moment of every run the only step of such a call that can change a row is the wipe of one that read the row unconsumed, or a step after the grace period; a transaction with a spent token always leads to the wipe |
| SessionRetries.RetryExact | internal/platform/auth/service.go:127-162 | the remaining steps taken one after another within the grace period end the call: refused with no row changed, or with all the user's rows deleted |
| SessionRetries.ConcurrentRetryWipes | internal/platform/auth/service.go:154-162 | of two calls that both read a token unconsumed, once one has got through, the other can only expire or end, over every run, with every family the user had dead, the first call's new token included |
| SessionRuns.OverlappingRefreshesLogOut | internal/platform/auth/service.go:112-175 | a run from the empty table with no time passing in which two overlapping refreshes leave the user without any row, one of them holding a pair |
| SessionRetries.CanGetThroughIff | internal/domain/tokens/repository.go:98-105 | a call on the point of its transaction can still get a pair in some continuation if and only if its token can still be consumed |
| SessionRetries.RaceIff | internal/platform/database/queries/tokens.sql:11-37 | after a logout, revocation, deletion or cleanup such a call can still get its pair if and only if its token could be consumed before and the statement spared it; otherwise every continuation in which it ends leaves it expired or the user with no living family |
| SessionRetries.CleanupRaceIff | internal/platform/database/queries/tokens.sql:34-37 | a cleanup before the transaction, with anything before and after, takes the pair away if and only if the token has expired meanwhile; the transaction, whenever it comes, then leads to the wipe |
| SessionRetries.RevokeOthersRace | internal/platform/auth/service.go:106-109 | revoking the other sessions while one of them is on the point of its transaction keeps the session presented alive at first, and over every run that session is dead once the other call ends other than expired |
| SessionRuns.CleanupLogsOut | internal/platform/database/queries/tokens.sql:34-37 | a run from the empty table in which that happens, and the same run without the cleanup in which the refresh gets through |
| SessionRuns.RevokeOthersLogsOutKept | internal/platform/auth/service.go:106-109 | a run from the empty table in which a user who logs out all other devices while one of them refreshes loses the session that asked as well |
| AuthService.Service.IssueSessionTokens | internal/platform/auth/service.go:63-81 | succeeds exactly when the hash and id are in no row; the new row is the user's, unconsumed, created now and expires a lifetime from now; otherwise nothing changes |
| AuthService.Service.ConsumeSessionToken | internal/platform/auth/service.go:84-87 | afterwards the token is not usable, and nothing else has changed |
| AuthService.Service.RevokeSession | internal/platform/auth/service.go:96-103 | succeeds exactly when the user has that session, and then reports whether it is the caller's own; otherwise reports a bad id and changes nothing |
| AuthService.Service.RefreshSession | internal/platform/auth/service.go:112-175 | the outcome and the rows in every branch; a new pair means a new row of the same user that expires a lifetime from now, and the old one consumed |
| AuthService.RefreshReplies | internal/platform/auth/service.go:112-175 | the reply to a refresh in every case, on the columns of the row presented, with the grace period in nanoseconds |
| AuthService.SessionLife | internal/platform/auth/service.go:122-154 | an unconsumed row is an active session before it expires; until it has expired it can be exchanged for one of the same user that lives a lifetime from then; after that it is refused as expired |
| AuthService.IssuedSessionLife | internal/platform/auth/service.go:63-81 | a session issued for a lifetime is active and can be exchanged until then, and what it is exchanged for is active for a lifetime from the exchange |
| AuthService.CleanedUpIsUnknown | internal/platform/database/queries/tokens.sql:34-37 | after a cleanup a token consumed more than 24 hours before is refused like an unknown one and no row is touched |
| AuthService.AloneIsRun | internal/platform/auth/service.go:112-175 | the method's result is that of the protocol's call with no other step in between, for every table |
| RateLimit.Limiter.Allow | internal/platform/ratelimit/ratelimit.go:43-59 | the script's step on that key alone, with a reset time that is never negative |
| RateLimit.LimiterState | internal/platform/ratelimit/ratelimit.go:16-26 | in every run the counter has an expiry and is bounded, remaining is the limit less the admissions of the window, a denial changes nothing and comes only with the window full |
| RateLimit.RecoveryExact | internal/platform/ratelimit/ratelimit.go:16-26 | after a denial the first request to arrive is admitted if and only if the reported time has passed |
| RateLimit.WindowsApart | internal/platform/ratelimit/ratelimit.go:21-24 | windows are disjoint stretches of full length |
| RateLimit.WindowBound | internal/platform/ratelimit/ratelimit.go:16-24 | each window admits at most the limit, also counting what arrives later |
| RateLimit.RateBound | internal/platform/ratelimit/ratelimit.go:11-27 | over every trace no interval of windowSeconds seconds holds more than twice the limit of admitted requests |
| RateLimit.OneASecond | internal/platform/ratelimit/ratelimit.go:11-27 | one request a second: refused at 999 ms with one millisecond to wait, admitted at 1000 ms |

## Left out

- AlbumRuns.CoherenceOverRuns: supposes that commands sharing a key run in the order of the statements behind them; a read whose row is fetched before and queued after another write's commands is outside that order.
- AlbumRepository.Repository.HydrateAlbumsList: runs its cache read, its query and its fills without other steps in between; what holds with steps in between is proved in `AlbumLists`, and for coherence in the run model, where a hydration is a step of its own.
- AlbumRepository.Repository.GetByID: reads the table itself; sharing one read among callers is modelled in `AlbumSharing`.
- AlbumRepository.Repository.SelectKeys: a selection loop stands for the database's ORDER BY and LIMIT.
- Cursors.RoundTrip: does not model the other spellings that the Go parsers of times and uuids accept, only the forms the encoder writes; the moment a civil time names is `Timestamps.Instant`.
- CursorWalk.TextWalkIsWalk: the civil time under which the database driver hands over a moment is a parameter, required to name that moment.
- RateLimit.RateBound: for a limit below 1 the bound is 2, because the script admits the first request of a window without comparing it with the limit.
- HTTP handlers other than the choice of list, routing, cookies, middleware, validators, logging, configuration: plumbing.
- OAuth, access tokens, hashing, encryption and random generation: libraries that are not part of this model.
- The users table and its cache, apart from which users are active and which a lookup finds.
- The cascade of a user's hard deletion into album keys, which the code leaves to expire.
- Database isolation, timeouts, connection failures and JSON encoding.
- Titles, covers and atlases: one opaque value, because no decision reads them.
