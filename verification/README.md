# FingerprintHub, verified

A Dafny model of FingerprintHub, the service that stores perceptual-hash fingerprints contributed by many
consumers and replicates them to the others, with proofs about the replication protocol, the rate limiter and
the encryption of stored text.

`dafny verify dfyconfig.toml` checks everything.

## What is modelled

**The store.** `Schema` has the three tables as maps, with their uniqueness and cascade rules, and the
`fingerprints_sync_seq` counter. `Steps` has every transaction as one step from one database state to the next:
contribute (insert, resurrect, duplicate, lost insert race), hit, flag with auto-hide, soft delete, retention.
`Store` has the same transactions as methods that change the tables statement by statement; each is proved to be
its step and to keep the invariant. `Invariants`, `Effects` and `Histories` hold what is true of every reachable
state, of one step, and of whole runs. `Retention` is the algebra of the retention policy, `Trust` is who can
take a row away, `Listing` is browsing with limit and offset, `Endpoints` is the handlers in front of the store.

**The sync protocol.** `Feed` is the paginated feed. `Replication` is a client over any hub whose changes are
numbered above a horizon: it fetches a page, applies it row by row, then saves the watermark, and may crash
anywhere. Two systems instantiate it. `SyncRuns` has atomic transactions, retention and time, with as much assumed
of the times as each theorem needs. `CommitOrder` separates drawing a number from committing it, as Postgres does.
What goes wrong without a condition has its own modules: `PurgeWindow` for purges, `Surplus` for filters,
`LostChange` for commit order. `FlagLock` interleaves flags, hits and deletions statement by statement under the
row lock.

**The rest.** `RateLimiter` is the sliding window and the last-seen throttle over real time. `Text` and `Base64`
(section 4 of RFC 4648) support `FieldEncryption`, which is the keyring parser and the envelopes, and
`Migration`, which is the reversible column rewrite of revision 0002. Authenticated encryption is a parameter,
about which only one thing is assumed: opening what was sealed gives the text back.

## Findings

- The purge rule must be measured from the *fetch of the last page* of a client's latest completed drain. A
  client that completes drains less than a tombstone's lifetime apart can still keep a purged row for ever,
  because a page may be fetched just before a deletion and saved long after it
  (`PurgeWindow.CompletionGapIsNotEnough`). With the right measure no client keeps a purged row that was still in
  its view (`SyncRuns.PurgeSafety`), and one unit beyond it some client does (`PurgeWindow.TimeBoundIsTight`).
  `docs/OPERATIONS.md:150-153` does not say from when to measure. What the replica says of rows the hub still has
  needs no such rule, however long the client was away (`SyncRuns.ReplicaConverges`).
- A client that filters on the compatibility triple keeps an entry whose row is contributed again under another
  triple. It has one exactly when it held the row at that moment, until the row comes back into view
  (`Surplus.SurplusIffHeld`), and a client that sees only timely purges holds nothing else beyond its view
  (`SyncRuns.FilteredDrain`). It happens (`Surplus.SurplusAfterDrain`), and such an entry outlives even the row,
  although every purge is timely (`Surplus.SurplusAfterPurge`).
- Numbers become visible in commit order, not in number order. A page that reaches past a number that is drawn
  and not yet committed loses that change for good, unless it is a tombstone for a row the client does not hold
  (`LostChange.PassedDraftIsLost`); two writers of different fingerprints suffice
  (`LostChange.TwoWritersLoseAChange`). If no page does that, nothing is ever missed
  (`CommitOrder.NothingIsMissed`). The feed query has no such guard, so the convergence results for the feed as
  written are those with atomic transactions.
- Without the row lock, two flags can bring a row to its threshold and leave it active (`FlagLock.WithoutTheLock`).
- A migration round trip is the identity exactly when no cell held an authentic envelope of another text beforehand
  (`Migration.RoundTripIsIdentity`). A text that only looks like an envelope, even one naming a configured key,
  survives (`Migration.CollisionSurvives`).

## Model

| member | source | states |
|---|---|---|
| Invariants.RunKeepsValid | api/fingerprint_store.py:36-367 | in every reachable state version numbers are distinct and at most the counter, a hash and owner name one row, `flag_count` equals the flag rows (tombstones included), a live row is hidden iff that reaches the threshold, and flags and hits have their fingerprint |
| Invariants.StepHasShape | api/fingerprint_store.py:4-13 | a step leaves a row's peer content and number alone or changes both, with a number above all given out; only contributions add rows, only retention removes them, and only old tombstones |
| Invariants.TripleChangesOnRevival | api/fingerprint_store.py:75-86 | only a resurrection moves a row to another compatibility triple |
| Invariants.StatusChanges | api/fingerprint_store.py:243-315 | only a deletion of it deletes a live row, only a flag on an active row hides it, new rows are active |
| Invariants.StepFlaggers | api/fingerprint_store.py:69-74 | a row's flaggers are emptied by activation, grow by a flag, and are untouched by anything else |
| Schema.FlaggersCountFlagRows | alembic/versions/0001_init.py:121-128 | under the unique constraint, counting distinct consumers counts flag rows |
| Effects.OthersUntouched | api/fingerprint_store.py:36-315 | no transaction but retention touches rows, flags or hits of a fingerprint it does not name |
| Effects.ContributionTakesEffect | api/fingerprint_store.py:69-124 | an insert or resurrection leaves an active row with all that was sent, the highest number, no flags and fresh times; a resurrected row keeps id, owner and hit statistics |
| Effects.DuplicateChangesNothing | api/fingerprint_store.py:61-68 | contributing the same hash again as the same owner changes nothing |
| Effects.FlaggingIsIdempotent | api/fingerprint_store.py:252-255 | a consumer's second flag changes only the row's update time |
| Effects.DeletedThenContributed | api/fingerprint_store.py:69-94 | delete then contribute gives back the same row under a higher number, hits kept, flags gone |
| Effects.HitTakesEffect | api/fingerprint_store.py:227-240 | a hit on a live row adds one to its count, sets its last-hit time and stores one hit row with what was reported; nothing else changes |
| Effects.FlagTakesEffect | api/fingerprint_store.py:268-301 | a first flag is stored with its reason and time; the count is the stored flags; the row is hidden under a fresh number iff it was active and they reach the threshold; other columns stay |
| Effects.DeletionTakesEffect | api/fingerprint_store.py:309-315 | a deletion changes a live row's status, number and update time, and no other column, flag or hit |
| Effects.DeadRowsStay | api/fingerprint_store.py:225-226 | hits, flags and deletions of a missing or deleted row change nothing |
| Effects.LostRaceSpendsNumbers | api/fingerprint_store.py:104-123 | a lost insert race spends a version number and an id, and writes nothing |
| Histories.VersionChangesWithContent | api/fingerprint_store.py:4-13 | the version number changes iff the hash, triple, category, action or status does, and the new number exceeds every one the sequence gave out before |
| Histories.VersionNamesContent | api/fingerprints.py:79-91 | over a whole run, equal id and equal version number mean equal hash, triple, category, action and status |
| Histories.VersionsGrow | api/fingerprint_store.py:4-13 | a row's number never decreases, its owner and hash never change |
| Histories.PurgedNeverReturns | alembic/versions/0001_init.py:48-52 | an id that was given out and purged never comes back |
| Histories.HitCountIsALedger | api/fingerprint_store.py:208-240 | `hit_count` is the surviving hit rows plus those retention expired, over every run |
| Store.FingerprintStore.constructor | alembic/versions/0001_init.py:46-80 | the empty store is valid |
| Store.FingerprintStore.Contribute | api/fingerprint_store.py:36-124 | the statements are the contribute step; created iff no live row of that hash and owner existed; the row's contents, the empty flags and the untouched others |
| Store.FingerprintStore.ReportHit | api/fingerprint_store.py:208-240 | None iff missing or deleted, and then nothing changes; otherwise the new count, the row with count and last-hit time set, and one hit row with all that was sent; the counter does not move |
| Store.FingerprintStore.Flag | api/fingerprint_store.py:243-301 | None iff missing or deleted; otherwise the first flag is stored with reason and time, the reply and the row carry the true number of flag rows, and hidden iff this call found the row active and the threshold reached |
| Store.FingerprintStore.SoftDelete | api/fingerprint_store.py:304-315 | true iff a live row was changed, which then has its status, a fresh number and the time set and every other column as before |
| Store.FingerprintStore.ApplyRetention | api/fingerprint_store.py:318-367 | refused iff a period is negative or metadata would outlive its tombstone, changing nothing; the four statements together are the retention step; a dry run reports the same and changes nothing |
| Store.FingerprintStore.Sync | api/fingerprint_store.py:165-205 | the query, the extra row and the cut give the page of the feed: gap-free, ascending, within the limit and full when more is announced, every record equal to its row column by column |
| Store.FingerprintStore.ListFingerprints | api/fingerprint_store.py:134-162 | at most limit listable rows, newest first, from the offset |
| Feed.SyncPageIsPage | api/fingerprint_store.py:165-205 | a page is a gap-free ascending stretch of the others' matching rows after the watermark; `next_since` is its last number, or the watermark if it is empty; `has_more` iff a matching row lies beyond |
| Feed.OneOrder | api/fingerprint_store.py:199 | there is exactly one listing of a set by increasing key |
| Feed.PagesAreTheFeed | api/fingerprints.py:150-165 | for every sequence of limit requests the pages end and concatenate to the whole feed |
| Feed.WholeFeedIsComplete | api/fingerprint_store.py:183-201 | the whole feed holds every matching row of others after the watermark, each once, ascending |
| Replication.ApplyNextKeepsInv | docs/CLIENT_INTEGRATION.md:52-57 | applying one row of a page, however stale the page, keeps the replication invariant |
| Replication.SaveKeepsInv | docs/CLIENT_INTEGRATION.md:58 | saving the watermark after the page keeps it |
| Replication.ObserveKeepsInv | api/fingerprint_store.py:165-205 | any change of the hub numbered above the horizon keeps it, with a page in flight or half applied |
| Replication.DrainIsExact | docs/CLIENT_INTEGRATION.md:46-61 | after the last page with nothing new behind it the replica is exactly the view, apart from departed rows |
| SyncRuns.ReplicaConverges | docs/CLIENT_INTEGRATION.md:46-61 | in every run of writes, purges of any age, fetches, row applications, saves and crashes, the replica agrees with the hub on every visible row up to the watermark, whatever the client filters on and whatever the clocks say |
| SyncRuns.UnfilteredDrain | api/fingerprint_store.py:177-181 | after a drain with no write since the fetch, an unfiltered replica has an entry for exactly the others' active rows, each equal to its row column by column |
| SyncRuns.FilteredDrain | api/fingerprint_store.py:185-193 | a drained client agrees on every row that passes its filter, and every surplus entry is of a row that was revived during the run under a triple it does not follow or, unless purges are timely, purged while it held the row |
| SyncRuns.SurplusIsAccountedFor | api/fingerprint_store.py:75-93 | the same of every surplus entry at every moment, drained or not |
| SyncRuns.DepartedFor | api/fingerprint_store.py:75-93 | a row a client holds leaves its view only by such a revival or such a purge |
| Surplus.SurplusIffHeld | api/fingerprint_store.py:75-93 | after a row is revived out of a client's filter, and until it comes back into view, the client has a surplus entry for it iff it held the row at that moment |
| Surplus.UnseenIsFrozen | api/fingerprint_store.py:185-193 | while a row is out of a client's view, and no page from before names it, its entry does not change |
| Surplus.SurplusAfterDrain | api/fingerprint_store.py:75-93 | a run with timely purges in which a client that follows one triple drains and keeps an entry for a row now under another |
| Surplus.SurplusAfterPurge | docs/OPERATIONS.md:150-153 | a run with timely purges in which that entry outlives the row |
| SyncRuns.PurgeSafety | docs/OPERATIONS.md:150-153 | for every client, when purges are within a tombstone's lifetime of its last drain's final fetch, it keeps a purged row only if the row was first revived out of its filter; a client that does not filter keeps none |
| SyncRuns.PurgedIsForgotten | api/fingerprint_store.py:350-354 | at the moment of a timely purge of a row in its view the client neither holds the row nor will re-create it from the page in flight |
| SyncRuns.CrashesAreHarmless | docs/CLIENT_INTEGRATION.md:58-61 | from any reachable state of any client, after any crashes, one undisturbed drain restores agreement, with every surplus entry accounted for; with timely purges an unfiltered replica is exactly the view |
| SyncRuns.RecoverIsExact | docs/CLIENT_INTEGRATION.md:46-61 | the drain loop ends, for any limits, agreeing on every visible row and holding beyond the view only what had departed |
| PurgeWindow.StrandedRow | docs/OPERATIONS.md:150-153 | for every timing in a family, a run with clocks in order that purges a row a client still holds |
| PurgeWindow.CompletionGapIsNotEnough | docs/OPERATIONS.md:150-153 | drains completed less than a tombstone's lifetime apart do not make a purge safe |
| PurgeWindow.TimeBoundIsTight | docs/OPERATIONS.md:150-153 | a purge any later than the condition of `PurgeSafety` allows strands a row in some run, for every lifetime |
| CommitOrder.NothingIsMissed | api/fingerprint_store.py:287-292 | whatever the commit order, with pages below every uncommitted number, no visible change up to the watermark is missing; row locks and unique constraints are kept |
| CommitOrder.OnlyCommitsShow | api/fingerprint_store.py:287-292 | committed rows change by committing a draft, or by an update peers cannot see, and by nothing else |
| CommitOrder.CarefulDrain | api/fingerprint_store.py:165-205 | a drain whose last page saw all drawn numbers settled leaves the exact projection |
| LostChange.PassedDraftIsLost | api/fingerprint_store.py:96-112 | from any state careful pages lead to, a page past a visible uncommitted number, applied, saved and followed by the commit, loses the change iff the draft is active or the client holds the row: below the mark, not reflected, on no later page |
| LostChange.TwoWritersLoseAChange | api/fingerprint_store.py:96-112 | a run of it from the empty store, with two writers of different fingerprints and every unique constraint kept |
| FlagLock.CommitIsAtomic | api/fingerprint_store.py:256-301 | each commit under the row lock is the atomic transaction on the row as it then is, with the reply of that moment |
| FlagLock.AtOnceIsTheStore | api/fingerprint_store.py:208-315 | that atomic transaction is the store's |
| FlagLock.OnlyCommitsShow | api/fingerprint_store.py:256-301 | no other statement changes what is committed |
| FlagLock.RunsToCommit | api/fingerprint_store.py:256-301 | a transaction that has the lock commits by its own statements alone, with the effect and the reply of the atomic one |
| FlagLock.FirstStatement | api/fingerprint_store.py:262-267 | the first statement answers missing iff the row is missing or deleted, and locks it otherwise |
| FlagLock.LockIsReleased | api/fingerprint_store.py:256-258 | in every run, a held lock can be freed by its holder's own statements |
| FlagLock.ThresholdNeverMissed | api/fingerprint_store.py:258-264 | for any interleaving no committed active row has threshold flaggers, and a hidden row was reported hidden by exactly one call since its activation |
| FlagLock.WithoutTheLock | api/fingerprint_store.py:258-261 | without the lock two flags reach a threshold of two and neither hides the row |
| Trust.OnlyOwnerOrAdminDeletes | api/fingerprints.py:296-320 | over every run a live row becomes deleted only by a request whose caller held write and owned it or was admin, whatever happened between check and delete |
| Trust.OnlyThresholdHides | api/fingerprint_store.py:286-294 | over every run a row becomes hidden exactly by the flag that brings the distinct flaggers since its activation to the threshold |
| Trust.HidesExactlyAtThreshold | api/fingerprint_store.py:286-294 | and every such flag does hide the row: the two are equivalent in every run |
| Trust.ApprovedIff | api/fingerprints.py:297-313 | a request passes the check iff its caller holds write, the row is live, and the caller owns it or is admin |
| Trust.FinishDeletes | api/fingerprints.py:315-320 | a request that passed takes its row away when finished, unless that has already happened |
| Endpoints.SyncFingerprints | api/fingerprints.py:139-172 | for any integers, by scopes and columns: the reply holds, within and up to the clamped limit, exactly the others' rows that meet each part of the filter from after `since` to `next_since`, each as its row says; `has_more` iff such a row lies beyond |
| Endpoints.GetFingerprint | api/fingerprints.py:324-335 | by scopes and columns: a hidden row exists only for its owner and admins, a deleted one for nobody; these two are shown every column, anybody else the peer columns |
| Endpoints.ListFingerprints | api/fingerprints.py:339-385 | by scopes and columns: the k-th entry is the row with offset + k newer ones among those the caller may browse and the query asks for, and a short reply ends the list; refused iff it asks for another's |
| Endpoints.DeleteFingerprint | api/fingerprints.py:296-320 | each verdict iff its condition on scopes, owner and status; an allowed deletion changes three columns of the row, and otherwise nothing changes |
| Endpoints.FeedRevealsPeersOnly | api/fingerprint_store.py:27-33 | stores that differ only in what peers are not shown (contributor, secrets, times, hits, flags) give a consumer the same pages |
| Retention.RetainComposes | api/fingerprint_store.py:339-360 | retention early and then late is retention late |
| Retention.SecondTimeIsIdle | api/fingerprint_store.py:339-367 | repeating it at the same time changes nothing and reports zeros |
| Retention.NothingExpiredRemains | api/fingerprint_store.py:340-360 | no expired hit, reason, tombstone or tombstone metadata is left |
| Retention.OnlyExpiredIsRemoved | api/fingerprint_store.py:340-360 | by columns: rows, flags and hits survive iff they have not outlived their period, and survive unchanged but for old tombstones' secrets and old flags' reasons |
| Retention.ReportCounts | api/fingerprint_store.py:362-367 | the four numbers are the differences between the two states |
| Listing.PagingSkipsNothing | api/fingerprints.py:349-350 | paging by offset to a short page shows every row listed at the start, while contributions, resurrections, hits, sub-threshold flags and retention go on |
| Listing.RankIsPosition | api/fingerprint_store.py:159-160 | a row's place in the listing is the number of listed rows newer than it |
| Listing.BrowseRanks | api/fingerprint_store.py:159-160 | the k-th row of a page has offset + k listed rows newer than it, and a page shorter than the limit ends the list |
| RateLimiter.Limiter.RateLimited | api/auth.py:50-58 | a call is refused iff the limit-th latest of the consumer's accepted calls is at most sixty seconds old; the history grows by exactly the accepted calls, and the window is its last sixty seconds |
| RateLimiter.Limiter.Trim | api/auth.py:51-54 | popping from the front leaves exactly the recent part of the whole accepted history |
| RateLimiter.AnyWindowIsBounded | api/auth.py:50-58 | every closed sixty-second interval, wherever it starts, holds at most max(0, limit) accepted calls |
| RateLimiter.TracesProject | api/auth.py:47 | a merged trace accepts for each consumer what it would accept alone |
| RateLimiter.LastSeen.Touch | api/auth.py:84-87 | a write is due iff the last mark, or 0 if there is none, is at least sixty seconds old, and then the mark moves to now; the marks are those of the whole history |
| RateLimiter.MarksAreThrottledAndFresh | api/auth.py:84-87 | writes are at least sixty seconds apart and the last mark is never sixty seconds old after a call |
| Base64.RoundTrip | utils/field_encryption.py:145-153 | decoding what was encoded gives the bytes back |
| Base64.EncodeClean | utils/field_encryption.py:145-153 | encoded text has no colon, comma or space |
| Base64.AlphabetIsTable1 | utils/field_encryption.py:145-153 | the alphabet is that of Table 1 of RFC 4648 |
| Base64.TestVectors | utils/field_encryption.py:145-153 | the test vectors of section 10 of RFC 4648 |
| Base64.DecodeAccepts | utils/field_encryption.py:51-57 | a text decodes iff it is whole groups of four digits but for at most two `=` at the end |
| Base64.DecodedIsSpelled | utils/field_encryption.py:168-169 | what is decoded is, byte by byte, what the groups of digits spell |
| Base64.NotCanonical | utils/field_encryption.py:168-169 | two texts can decode to the same bytes, so encoding does not invert decoding |
| FieldEncryption.ParseKeyring | utils/field_encryption.py:65-106 | the loop with its two dictionaries computes the parser, errors included |
| FieldEncryption.AcceptedIsWellFormed | utils/field_encryption.py:65-106 | an accepted keyring has valid ids, distinct 32-byte keys, and its active id among them |
| FieldEncryption.ParseIff | utils/field_encryption.py:65-106 | a keyring is parsed iff every comma-separated entry reads, apart from whitespace and around its first colon, as a valid id and the base64 of a 32-byte key, all ids and keys are distinct and the active id is among them; it holds these and nothing else |
| FieldEncryption.PrintedKeyringParses | utils/field_encryption.py:74-106 | any keys printed in any order, with any whitespace around separators, parse back |
| FieldEncryption.MapOfIsExact | utils/field_encryption.py:102-106 | what is parsed back has the printed ids and keys and no others |
| FieldEncryption.GeneratedEntryParses | utils/field_encryption.py:118-123 | a generated entry is by itself a keyring configuration |
| FieldEncryption.EnvelopeOpens | utils/field_encryption.py:145-178 | under any well-formed keyring the printed envelope decrypts to its text |
| FieldEncryption.DecryptIff | utils/field_encryption.py:156-178 | a value decrypts to a text iff it is an envelope naming a configured key, with the base64 of a twelve-byte nonce and of something the cipher opens to that text |
| FieldEncryption.EnvelopeDecrypts | utils/field_encryption.py:174-178 | an envelope in form decrypts to what the cipher opens it to, and fails when the cipher refuses |
| FieldEncryption.EncryptSealsUnder | utils/field_encryption.py:136-154 | encryption succeeds iff the key id is absent, empty or configured; the envelope names that key, the active one by default, and the nonce, and that key alone opens it |
| FieldEncryption.DecryptInvertsEncrypt | utils/field_encryption.py:130-178 | for every accepted keyring, configured key, nonce and text decryption inverts encryption, which fails only for an unconfigured key id |
| FieldEncryption.EnvelopeSplits | utils/field_encryption.py:159-162 | the five-way split gives back exactly the five printed parts |
| FieldEncryption.RotationKeepsPlaintext | utils/field_encryption.py:65-106 | appending entries and choosing another active key never changes what an envelope decrypts to |
| FieldEncryption.RekeyingKeepsPlaintext | utils/field_encryption.py:215-217 | nor does rekeying any number of times |
| FieldEncryption.RekeyMovesToTarget | utils/field_encryption.py:215-217 | rekeying an envelope that decrypts succeeds iff the target is absent, empty or configured, and the result is sealed under the target alone |
| Text.SplitAppend | utils/field_encryption.py:74 | splitting at commas distributes over a comma between two texts |
| Text.JoinSplit | utils/field_encryption.py:74 | the parts of a split are free of the separator and join to the text |
| Text.JoinSplitAtMost | utils/field_encryption.py:159 | with a limit on the cuts, only the last of all the parts may keep separators |
| Text.StripTakes | utils/field_encryption.py:75-84 | stripping takes whitespace off both ends, and all of it |
| Migration.Column.Rewrite | alembic/versions/0002_privacy_hardening.py:26-57 | the loop rewrites every non-null cell to its target in any order; without keys it fails iff some cell needs them, before anything is written |
| Migration.ShapedIff | utils/field_encryption.py:157-161 | a downgrade needs the keyring for exactly the values with the prefix and at least two more colons |
| Migration.Tables.Upgrade | alembic/versions/0002_privacy_hardening.py:60-69 | the five columns are rewritten, or none |
| Migration.Tables.Downgrade | alembic/versions/0002_privacy_hardening.py:72-81 | the five columns are written back, or none |
| Migration.UpgradeSealsEveryCell | alembic/versions/0002_privacy_hardening.py:32-43 | a cell that opens to some text stays; any other non-null cell becomes an envelope under the active key and its own row's nonce that opens to what it was; nulls stay |
| Migration.DowngradeOpensEveryCell | alembic/versions/0002_privacy_hardening.py:44-57 | a non-null cell that opens becomes its text, any other stays; nulls stay |
| Migration.CollisionSurvives | alembic/versions/0002_privacy_hardening.py:36-40 | a text in the very form of an envelope that the cipher refuses is sealed by an upgrade and comes back unchanged from a downgrade |
| Migration.TablesUpgraded | alembic/versions/0002_privacy_hardening.py:60-69 | each of the columns is sealed with nonces of its own |
| Migration.SecondUpgradeIsIdle | alembic/versions/0002_privacy_hardening.py:33-42 | a second upgrade changes nothing whatever nonces are drawn |
| Migration.DowngradeUndoesUpgrade | alembic/versions/0002_privacy_hardening.py:44-53 | downgrade after upgrade leaves what downgrade alone would, prefix collisions and added keys included |
| Migration.RoundTripIsIdentity | alembic/versions/0002_privacy_hardening.py:26-57 | the round trip is the identity iff no cell opens to a text other than itself |
| Migration.AuthenticCellComesBackOpen | alembic/versions/0002_privacy_hardening.py:33-42 | a cell that held an authentic envelope comes back as its text |
| Migration.TablesRoundTrip | alembic/versions/0002_privacy_hardening.py:60-81 | upgrade then downgrade over all five columns is the identity when no cell opens to anything |

## Left out

- HTTP routing, JSON parsing and validation of request fields, the connection pool and the threads.
- `stats`, API-key hashing and consumer administration: reads and writes of single rows.
- Decryption of the cells in a full record; the cells are opaque there.
- AES-GCM itself and UTF-8: the cipher works on texts and is assumed only to open what it sealed.
- FieldEncryption.Decrypt: does not model an authentic plaintext that is not UTF-8, which encryption never produces.
- FieldEncryption.Parse: the source has one exception for every bad configuration and tells them apart by message; the model names the cases, and `ParseIff` is about acceptance.
- Base64.Decode: follows RFC 4648 with padding; some versions of Python also ignore stray padding after the last group.
- `encrypt_json`, `decrypt_json_field` and the cache behind `load_keyring_from_env`.
- Rollback of a migration by the database: without keys nothing has been written when it fails, and no other failure is modelled.
- Identities of flag rows, and the order in which the database stores anything.
- The client's suppression list, its enum guard, its own contributions and its matching; only rows that came from the hub are in the replica.
- Two contributions of one hash and owner interleaved inside their transactions: the loser is the step `LoseRace`, which only spends counters.
- Endpoints.DeleteFingerprint: serves the request without interruption; `Trust` has anything happen between its two transactions.
- Surplus.SurplusIffHeld: is about moments when no page in flight names the row; a page that does decides the entry first.
- CommitOrder.NothingIsMissed: retention and time are not part of that system; the purge results are about atomic transactions.
- FlagLock.ThresholdNeverMissed: creating and resurrecting a row are single steps there, and retention is not part of it.
- Store.FingerprintStore.ApplyRetention: each SQL statement is one update of a whole table; the loop inside the database is not modelled.
- RateLimiter.Limiter.RateLimited: time is real and never runs backwards, and the calls of one process are one sequence.
- RateLimiter.LastSeen.Touch: the database write it announces is best effort and not modelled.
