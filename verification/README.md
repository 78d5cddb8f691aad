# Fortytwode, verified

Fortytwode is a multi-user server that pulls a user's data from the 42 API, curates it, stores it in
PostgreSQL and shows it to its owner and to visitors. This project models its state machines and its
text and time algorithms, and proves properties of every run of them.

`dafny verify dfyconfig.toml` checks the whole project.

| files | what they model |
|---|---|
| `Text`, `Redaction`, `Curation` | removing other people's logins from evaluations, and curating a raw snapshot |
| `Limiter` | the sliding-window attempt limiter, with both clock readings of a take |
| `Rows`, `Cooldowns`, `Store` | the database rows, each SQL statement one atomic step, and the store class over them |
| `StoreRuns`, `TokenHistory`, `AccountRuns`, `GcRuns`, `CampusZones` | properties of whole runs of statements |
| `Email`, `Handlers` | the address gate and the request handlers, each one atomic step over the store |
| `Requests`, `Serving` | runs of requests as runs of the statements their handlers issue, and that the handlers do exactly those |
| `SyncProtocol`, `Jobs`, `Sync` | concurrent sync workers, the job registry with jobs that end mid-scan, and one sync from pull to stored snapshot |
| `Migrations` | the migration runner: lock, read, apply and record, with processes crashing anywhere |
| `Calendar` | the pool-month window over the Gregorian calendar (leap years as in Appendix C of RFC 3339) |
| `Client` | retries and pagination against the 42 API |
| `Sorting`, `Skills`, `View` | what the owner and a visitor see of a snapshot |

The code has two forms throughout. What the source does in steps is a method or a class, proved equal to a
step function or against a stated property; runs are sequences of such steps, and the lemmas are about all runs.

Assumptions, stated where they are used: the clock never decreases (`Limiter.Clocked`, `GcRuns.Proper`);
ids, session ids and token hashes are never used twice (`StoreRuns.Fresh`, `GcRuns.Proper`); application and
database read one clock.

Three promises do not hold without a condition, and the condition is proved with them. One worker per 42 id, harmless
releases and spaced successes hold in all runs exactly when the time limit on workers is at most the cooldown. The verified
flag stays in all states exactly when verification links go to unverified accounts, which holds in every run of requests
that do not interleave. For logins without brackets redaction is complete exactly when none is part of the marker's word;
freedom from brackets is a sufficient condition, without which some logins do survive.

Where a comment and the code differ the model follows the code. The verified flag is not final by itself:
storing a verification token clears it, and only the handlers' gate prevents that for verified accounts.

## Model

| member | source | states |
|---|---|---|
| `Redaction.ScrubSplits` | internal/snapshot/snapshot.go:445-464 | For bracket-free, non-empty logins that are no part of "redacted": the input can be cut into kept texts and hits, every hit is one of the logins, the output is the same cuts with each hit replaced by the marker, and no kept text holds any login |
| `Redaction.ScrubRemovesEveryLogin` | internal/snapshot/snapshot.go:445-464 | No login occurs anywhere in the final text, across kept text and markers, even after later passes |
| `Redaction.ScrubLeavesCleanText` | internal/snapshot/snapshot.go:445-464 | A text that holds none of the logins is returned unchanged |
| `Redaction.ScrubIsIdempotent` | internal/snapshot/snapshot.go:445-464 | Scrubbing a scrubbed text changes nothing |
| `Redaction.LongestFirstCovers` | internal/snapshot/snapshot.go:440-464 | With longest logins first, wherever a login stands in the input a hit at least as long overlaps it, so no login is half-redacted by a shorter one |
| `Redaction.CompleteIffNoLoginInMarker` | internal/snapshot/snapshot.go:445-464 | For bracket-free logins, scrubbing removes every login from every text if and only if no login is part of "redacted" |
| `Redaction.BracketLoginSurvives` | internal/snapshot/snapshot.go:445-464 | A login with a bracket that can fuse with a marker and survives its own pass |
| `Text.LoweredSays` | internal/snapshot/snapshot.go:254-256 | Looking for a lower-case phrase in the lower-cased text finds it exactly when the text says it in any casing |
| `Curation.Unique` | internal/snapshot/snapshot.go:446-453 | Keeps each login once and loses none |
| `Curation.SortLongestFirst` | internal/snapshot/snapshot.go:454-456 | Orders distinct logins longest first, losing and repeating none |
| `Curation.LoginScrubber` | internal/snapshot/snapshot.go:445-464 | The pass order holds every given login once, longest first |
| `Curation.RunScrubber` | internal/snapshot/snapshot.go:457-463 | The loop over the passes computes the chain of replacements the redaction lemmas are about |
| `Curation.CollectOthers` | internal/snapshot/snapshot.go:374-396 | The scrubbed logins are exactly those of all participants that are neither blank nor the owner's |
| `Curation.EvalFrom` | internal/snapshot/snapshot.go:374-428 | The curated evaluation is the raw one with team name, comments and feedbacks scrubbed by an admissible pass order, generic team names dropped and only the owner kept as an author |
| `Curation.CuratedEvalNamesNoOther` | internal/snapshot/snapshot.go:374-428 | No team name, comment or feedback comment of a curated evaluation contains the login of the corrector, the truant, a corrected user, a feedback author or a team member other than the owner, and none of them is kept as an author, when those logins have no brackets and are no part of "redacted" |
| `Curation.CuratedEvalRedactsInPlace` | internal/snapshot/snapshot.go:374-428 | Every kept text is the raw one with logins of participants other than the owner cut out and the marker in their place, everything else in order |
| `Curation.CleanTextsAreKept` | internal/snapshot/snapshot.go:374-428 | A comment or team name that holds no other participant's login is kept as it is, a team name unless it says "'s group" or "'s team" in any casing |
| `Curation.CuratedEvalKeepsFacts` | internal/snapshot/snapshot.go:374-438 | Marks, flags, dates, ratings and truancy are copied, the title is the named project's or else the path's last part, an author is kept only when it is the owner, and no kept team name is generic |
| `Curation.CurateEvals` | internal/snapshot/snapshot.go:208-222 | Evaluations are curated one by one, in order |
| `Curation.CurateInto` | internal/snapshot/snapshot.go:208-222 | Adds the curated document under its key when the raw one decodes, and changes nothing otherwise |
| `Curation.Curate` | internal/snapshot/snapshot.go:166-204 | Emits exactly the keys whose raw resource decodes (the profile yields two), each with its curated document |
| `Curation.CuratedProfile` | internal/snapshot/snapshot.go:316-358 | A decodable profile yields the profile and the titles document, each title named by the last row of its id |
| `Curation.LastNameWins` | internal/snapshot/snapshot.go:166-204 | Among rows of one id the last one names it |
| `Curation.CuratedProjects` | internal/snapshot/snapshot.go:364-372 | The projects document is there exactly when the resource decodes, each project under its own name |
| `Curation.CuratedEvals` | internal/snapshot/snapshot.go:208-222 | The two evaluation documents are there exactly when their resources decode, each evaluation curated for the login of the profile, with the names of the owner's projects |
| `Curation.CuratedItems` | internal/snapshot/snapshot.go:208-222 | Each of the five plain collections is there exactly when it decodes, with its items |
| `Text.AfterLast` | internal/snapshot/snapshot.go:243-249 | The slug holds no separator, is a suffix of the path, and is preceded by a separator unless it is the whole path |
| `Limiter.CompactInPlace` | internal/web/auth.go:258-273 | Compacting through the slice's own storage leaves exactly the recent stamps, in order, at the front |
| `Limiter.AttemptLimiter.CountRecent` | internal/web/auth.go:258-273 | Replaces the key's stamps by the recent ones (no entry when none are left), touches no other key and returns their number |
| `Limiter.AttemptLimiter.Allowed` | internal/web/auth.go:206-210 | Answers true exactly when fewer than max of the key's stamps are younger than the window, and compacts that key |
| `Limiter.AttemptLimiter.Take` | internal/web/auth.go:220-228 | Answers true exactly when fewer than max of the key's stamps are younger than the window at the first clock reading, and then appends the second |
| `Limiter.AttemptLimiter.Prune` | internal/web/auth.go:239-256 | Every key is compacted, empty keys go, and nothing else changes, in whatever order the map is walked |
| `Limiter.RecentAreLater` | internal/web/auth.go:258-273 | Compacting keeps exactly the stamps later than the cutoff, as many as there are positions holding one |
| `Limiter.NoEmptyEntries` | internal/web/auth.go:239-273 | In every run no key without stamps takes room in the map |
| `Limiter.AnswerIsStepReply` | internal/web/auth.go:206-228 | The answer the run theorems speak of is the one the limiter's methods return on the map the run has reached |
| `Limiter.MapHoldsStored` | internal/web/auth.go:189-273 | The map's entry of a key after a run is determined by the operations on that key and the prunes alone |
| `Limiter.RefinesCharges` | internal/web/auth.go:206-273 | From the last clock reading on, the compacted list shows the same recent stamps as the complete log of charges |
| `Limiter.AnswersFromLog` | internal/web/auth.go:206-228 | take and allowed answer as if counting recent charges in the complete, never compacted log |
| `Limiter.AnswerCountsCharges` | internal/web/auth.go:206-228 | In every run take and allowed succeed if and only if fewer than max positions of the key's complete log of charges since it was last cleared hold a stamp younger than the window |
| `Limiter.PruningIsInvisible` | internal/web/auth.go:239-256 | Dropping all prunes from a run changes no answer of any other operation |
| `Limiter.StoredInClockOrder` | internal/web/auth.go:206-273 | The stored stamps of every key are sorted and not later than the clock |
| `Limiter.StoredListBounded` | internal/web/auth.go:220-228 | The stored list of a key charged only through take is sorted and never longer than max |
| `Limiter.SuccessesSpaced` | internal/web/auth.go:220-228 | Of a take-only key, a success and the max-th after it are a whole window apart, from the earlier stamp to the later count |
| `Limiter.AtMostMaxPerWindow` | internal/web/auth.go:206-273 | In every run, no half-open interval of the window's length holds more than max successful takes of a take-only key, whatever instant between its two clock readings each one is placed at |
| `Store.Store.Open` | internal/store/store.go:41-60 | Opening leaves the rows alone and rebuilds the campus index from them |
| `Store.Store.CreateAccount` | internal/store/store.go:137-156 | Inserts the unverified account with its curated snapshot and no token, or, exactly when an account has the email, the 42 id or the login, inserts nothing; the index notes an inserted snapshot |
| `Store.Store.UpdateSnapshot` | internal/store/store.go:186-199 | Merges the curated keys over the stored ones and moves the fetch time, for this account only, and notes the campus |
| `Store.Store.UpdateEmail` | internal/store/store.go:272-280 | With an existing id and an address no other account holds, the account has the new address and everything else is as before; with a held address nothing changes |
| `Store.Store.SetToken` | internal/store/store.go:295-300 | The token is in the account's slot of that kind, a verification token also marks the account unverified, and no other slot, field or account changes |
| `Store.Store.PeekToken` | internal/store/store.go:333-343 | Finds an account carrying the hash, sent less than an hour (login) or a day (the others) ago, exactly when there is one, and changes nothing |
| `Store.Store.RedeemToken` | internal/store/store.go:405-435 | Redeems a live token atomically, reports not-found or duplicate without changing anything, cascades to sessions and returns the address held just before |
| `Rows.RedeemMeans` | internal/store/store.go:306-488 | A redemption finds nothing exactly when no account carries the hash young enough; applied, it empties the slot, verifies (verification, login), moves the address to the parked one (email change) or removes the account (deletion), for the carriers only; otherwise nothing changes |
| `Store.Store.DeleteAccount` | internal/store/store.go:440-443 | Removes the account and its sessions |
| `Store.Store.PurgeUnverifiedAccounts` | internal/store/store.go:597-605 | Removes exactly the unverified accounts whose last verification link was sent more than seven days ago, with their sessions, leaves the others as they were and counts the removed |
| `Store.Store.CreateSession` | internal/store/store.go:491-496 | Adds the session when its account exists and its id is unused |
| `Store.Store.SessionAccount` | internal/store/store.go:499-508 | A session resolves exactly when it is there and expires later than now, and then to its own, existing account |
| `Rows.NewSessionResolves` | internal/store/store.go:491-508 | A session just created resolves to its account until it expires, and to nobody from then on |
| `Store.Store.ReserveSync` | internal/store/store.go:543-563 | Grants and stamps the slot exactly when there is no reservation younger than the cooldown, and otherwise reports that reservation and the time left, changing nothing |
| `TokenHistory.SlotsRefineHistory` | internal/store/store.go:292-488 | In every run each token slot of each account is exactly the outstanding token of the issue-and-redeem history |
| `TokenHistory.PeekFindsRedeemable` | internal/store/store.go:330-470 | A peek finds an account exactly when the history has an outstanding, unexpired token of that hash for it |
| `TokenHistory.PeekFindsAtMostOne` | internal/store/store.go:330-470 | With fresh tokens a peek finds at most one account |
| `TokenHistory.RedeemSucceedsIff` | internal/store/store.go:292-488 | A redemption succeeds if and only if its token is the last one issued for its account and kind, unredeemed, unexpired, and the account exists; for an email change the parked address must also be free |
| `TokenHistory.TakenAddressLeavesTokenLive` | internal/store/store.go:399-435 | A confirmation whose address was taken answers Duplicate, changes nothing and leaves the token redeemable |
| `TokenHistory.RedeemsAtMostOnce` | internal/store/store.go:292-488 | After a redemption every further attempt with the token finds nothing |
| `TokenHistory.PeekAgreesWithRedeem` | internal/store/store.go:330-488 | Peek and redemption agree on whether there is an account, and a redemption leaves all other accounts as they were |
| `TokenHistory.EmailsStayUnique` | internal/store/migrations/0001_init.sql:4-15 | No two accounts of a reachable state share an address |
| `AccountRuns.VerifiedForGood` | internal/store/store.go:292-318 | In a run of statements whose verification links all go to accounts unverified at that moment, an account once verified stays verified |
| `AccountRuns.FlagsStayIffGated` | internal/store/store.go:292-300 | In a run of statements no account that stays ever loses its verified flag, if and only if every verification link was stored on an account unverified at that moment |
| `AccountRuns.RedeemedSurvivesPurge` | internal/store/store.go:597-605 | In such a run an account that ever redeemed a verification or login link survives every unverified purge |
| `AccountRuns.NeverSentNeverPurged` | internal/store/store.go:591-605 | An account never sent a verification link is never purged |
| `AccountRuns.LiveLinkSurvivesPurge` | internal/web/auth.go:48-53 | No purge removes the account of a verification link that can still be redeemed, because 7 days exceed 24 hours |
| `AccountRuns.LateResendLosesAccount` | internal/web/verify.go:202-212 | Counterexample for handlers that are not atomic: a resend that checked before the click and writes after it un-verifies the account, and the purge then takes it |
| `AccountRuns.AddressesStayCanonical` | internal/web/auth.go:304-317 | When every written address is canonical, all stored and pending ones are |
| `AccountRuns.LookupByEmailIsUnique` | internal/store/store.go:158-163 | A case-insensitive lookup then finds at most one account |
| `AccountRuns.SessionsReferToAccounts` | internal/store/migrations/0001_init.sql:17-21 | Every session of a reachable state belongs to an existing account |
| `AccountRuns.DeletionErases` | internal/store/store.go:472-488 | A confirmed deletion removes the account and all its sessions, and no other session |
| `AccountRuns.SnapshotHoldsLatest` | internal/store/store.go:183-199 | The stored value of a key is the one brought by the latest sync that emitted it |
| `AccountRuns.KeysStay` | internal/store/store.go:183-199 | A stored key never disappears while its account exists |
| `Curation.EmitsOnlyCurated` | internal/snapshot/snapshot.go:160-204 | Curation emits curated keys only; the merged evaluations and the cursus list never get through |
| `AccountRuns.OnlyCuratedKeys` | internal/snapshot/snapshot.go:160-204 | When every sync stores what curation made of some raw snapshot, only curated keys are ever stored |
| `GcRuns.GarbageCollectionIsInvisible` | internal/web/server.go:70-85 | Every run gives its callers the session, reservation and cooldown replies of the same run without the expired-session and stale-cooldown purges |
| `Requests.RequestsAreGated` | internal/web/verify.go:111-125 | Every run of requests, handlers not interleaving, stores verification links on unverified accounts only |
| `Requests.VerifiedStays` | internal/web/verify.go:111-125 | In every run of requests and purges an account once verified stays verified as long as it exists |
| `Requests.RedeemerSurvivesPurges` | internal/store/store.go:597-605 | In every run of requests an account that ever redeemed a verification or login link survives the purge |
| `Requests.OneHolderInRuns` | internal/web/handlers.go:798-850 | In every run of requests a token leads to at most one account, as the confirming handlers count on |
| `Requests.RequestsPassGate` | internal/web/auth.go:304-329 | In every run of requests every address written, stored or parked, has whatever property the gate guarantees |
| `Requests.AddressesStayUnambiguous` | internal/store/store.go:158-163 | In every run of requests an address, in whatever casing, leads to at most one account |
| `Requests.RunContinues` | internal/web/handlers.go:331-373 | One more request plays its statements on the world the run has reached |
| `Serving.ServeSignup` | internal/web/handlers.go:331-373 | The sign-up handler changes accounts and sessions exactly as the statements of its request do |
| `Serving.ServeSendLogin` | internal/web/handlers.go:383-409 | The login-link handler changes accounts and sessions exactly as the statements of its request do |
| `Serving.ServeLoginConsume` | internal/web/handlers.go:440-467 | The login-redemption handler changes accounts and sessions exactly as the statements of its request do |
| `Serving.ServeVerifyEmail` | internal/web/verify.go:160-186 | The verification handler changes accounts and sessions exactly as the statements of its request do |
| `Serving.ServeVerifyResend` | internal/web/verify.go:202-212 | The resend handler changes accounts and sessions exactly as the statements of its request do |
| `Serving.ServeVerifyEmailChange` | internal/web/verify.go:219-244 | The address-correction handler changes accounts and sessions exactly as the statements of its request do |
| `Serving.ServeSettingsEmail` | internal/web/handlers.go:696-763 | The settings-address handler changes accounts and sessions exactly as the statements of its request do |
| `Serving.ServeConfirmEmail` | internal/web/handlers.go:798-850 | The address-confirmation handler changes accounts and sessions exactly as the statements of its request do |
| `Serving.ServeRequestDelete` | internal/web/delete.go:46-65 | The deletion-request handler changes accounts and sessions exactly as the statements of its request do |
| `Serving.ServeConfirmDelete` | internal/web/delete.go:95-124 | The deletion-confirmation handler changes accounts and sessions exactly as the statements of its request do |
| `Serving.ServeFinishSync` | internal/store/store.go:183-199 | The end of a sync changes accounts and sessions exactly as its snapshot statement does, with what curation made of the raw snapshot |
| `Serving.ServePurgeRound` | internal/web/server.go:70-85 | One tick of the purge loop changes accounts and sessions exactly as its purge statements do |
| `Email.AcceptedAgain` | internal/web/auth.go:318-329 | What the gate returns is its own canonical form, and submitting it again gives the same verdict, for any lower-casing that settles after one pass |
| `Email.AcceptedIff` | internal/web/auth.go:318-329 | A submitted address is lower-cased without the white space around it, and accepted exactly when that has at most 254 bytes, parses to itself and has a dot after its last @ |
| `Email.TrimKeepsMiddle` | internal/web/auth.go:318-319 | Trimming removes exactly the white space at the two ends |
| `Email.BytesPerCharacter` | internal/web/auth.go:320-322 | The length limit counts bytes of UTF-8: one to four for a character, one each exactly for ASCII |
| `Email.AsciiLoweringSettles` | internal/web/auth.go:318-319 | Lower-casing ASCII letters does: twice is once, and it leaves nothing to trim |
| `Email.GateMakesLookupsUnique` | internal/web/auth.go:304-329 | When all writes pass the gate and the database leaves alone what the application has lower-cased, stored addresses are canonical for the database and a case-insensitive lookup finds at most one account |
| `Handlers.CurrentAccount` | internal/web/auth.go:134-144 | The account of the request's live session, if any |
| `Handlers.ViewerIsSignedIn` | internal/web/auth.go:134-144 | A request is an account's exactly when its cookie names a session of that account that has not expired |
| `Handlers.RotateSession` | internal/web/auth.go:174-181 | The old session is gone and the new one exists |
| `Handlers.KeepOneSession` | internal/web/handlers.go:828-849 | The account's sessions become the rotated one, or none when confirmed elsewhere; other accounts' sessions stay |
| `Handlers.ConfirmEmail` | internal/web/handlers.go:798-850 | Applies the parked address of the one account holding the live token, notifies the address held just before, leaves the account exactly the rotated session or none, and touches no other account's sessions |
| `Handlers.ConfirmDelete` | internal/web/delete.go:95-124 | Removes exactly the account holding the live token with all its sessions and no others; a bad link changes nothing |
| `Handlers.VerifyEmail` | internal/web/verify.go:160-186 | Redeems the link; on success the account is verified and its link spent |
| `Handlers.LoginConsume` | internal/web/handlers.go:440-467 | Redeems the link; on success the account is verified and gains exactly one session |
| `Handlers.RequireUnverified` | internal/web/verify.go:111-125 | Yields the signed-in account exactly when it is still unverified |
| `Handlers.VerifyResend` | internal/web/verify.go:202-212 | Only a browser within the cap that is signed in to an unverified account gets a new link; it replaces the old one, and nothing else changes |
| `Handlers.VerifyEmailChange` | internal/web/verify.go:219-244 | When the change is accepted, the account has the submitted address in its canonical form, is unverified, carries the new link, and keeps all its other fields and slots, and every other account is as it was; a refused change touches nothing |
| `Handlers.MayCorrectMeans` | internal/web/verify.go:219-244 | A correction is accepted exactly within the cap, with an address the gate accepts and no other account holds, from a browser signed in to an unverified account |
| `Handlers.Signup` | internal/web/handlers.go:331-373 | Creates the account, one session and one verification link exactly when the address passes the gate and address, 42 id and login are free |
| `Handlers.SyncSignin` | internal/web/handlers.go:170-198 | Starts a session for the matched account if it still exists |
| `Handlers.SendLoginLink` | internal/web/handlers.go:383-409 | Sends a login link exactly when the gate accepts the address, the cap allows it and an account answers to it |
| `Handlers.SettingsEmail` | internal/web/handlers.go:696-763 | Parks the new address exactly for a verified account within the cap, an accepted address other than its own, and no account answering to it |
| `Handlers.MayMoveMeans` | internal/web/handlers.go:696-763 | An address is parked exactly within the cap, with an address the gate accepts that is not the account's own and that no account answers to in any casing, from a browser signed in to a verified account |
| `Handlers.RequestDelete` | internal/web/delete.go:46-65 | Sends a deletion link exactly to a signed-in verified account within the cap |
| `CampusZones.LoadCampusZones` | internal/store/store.go:656-684 | The rebuilt index gives each reported campus the zone of the newest account reporting it, and holds nothing else |
| `CampusZones.RebuildTells` | internal/store/store.go:656-684 | A rebuild knows exactly the campuses that some profile names together with a zone, each with the zone of an account no other report of that campus is fetched later than |
| `CampusZones.IndexFollowsSyncs` | internal/store/store.go:687-698 | A sync, or a sign-up that succeeds, whose profile names campus and zone sets that campus to that zone; nothing else changes the index |
| `CampusZones.IndexCoversRebuild` | internal/store/store.go:647-706 | From Open on, every campus a rebuild would find has an entry in the index |
| `CampusZones.IndexEqualsRebuild` | internal/store/store.go:647-706 | When each campus always reports one zone, the index equals the rebuild wherever the rebuild is defined |
| `SyncProtocol.OneHolderIff` | internal/web/handlers.go:88-139 | For every cooldown and every time limit on workers: in all runs that keep the limit at most one worker holds each 42 id, if and only if the limit is at most the cooldown |
| `SyncProtocol.ReleaseIsOwnIff` | internal/web/handlers.go:95-104 | In all runs that keep the limit a failing worker's release removes the slot it wrote and leaves every other holder's alone, if and only if the limit is at most the cooldown |
| `SyncProtocol.SuccessesApartIff` | internal/store/store.go:536-563 | In all runs that keep the limit two successful syncs of one id were reserved a cooldown apart, if and only if the limit is at most the cooldown (or the cooldown is zero) |
| `SyncProtocol.SlowWorkerIsJoined` | internal/web/handlers.go:88-139 | For every limit above the cooldown: the run in which a second worker joins one that is still at it |
| `SyncProtocol.GrantsCooledDown` | internal/store/store.go:536-563 | With no limit on workers, two grants of one id with no release between them are at least a cooldown apart |
| `Migrations.Store.Migrate` | internal/store/migrate.go:36-137 | Equals the pure pass over the files against the rows read at the start; a crash before a file leaves exactly the pass over the files before it |
| `Migrations.DoneRecordsAll` | internal/store/migrate.go:36-137 | After a pass that ends well every file has a version and is recorded under it with the body it has |
| `Migrations.AddedRowsAreFiles` | internal/store/migrate.go:98-135 | However a pass ends, every row it adds has the version, name and body of one of the files |
| `Migrations.FailuresHaveReasons` | internal/store/migrate.go:98-135 | A pass fails only for a file name without a version, an edited applied file, a body that fails on the schema reached, or a version recorded since the rows were read |
| `Migrations.SchemaIsFoldOfRecords` | internal/store/migrate.go:36-137 | For any processes crashing anywhere, the schema is always the recorded bodies run in commit order, versions are recorded once, and records are never lost |
| `Migrations.LockKeepsReadCurrent` | internal/store/migrate.go:44-70 | While a process holds the lock, every row beyond those it read is its own |
| `Migrations.EveryRunProgresses` | internal/store/migrate.go:98-137 | At every moment of every run the database is the original one brought forward by a prefix of the files |
| `Migrations.InterruptedRunsEqualOneCleanRun` | internal/store/migrate.go:36-137 | Once any process succeeds, after any number of crashed or failed ones, the database is what one clean run would have produced |
| `Migrations.EditedFileStopsMigrate` | internal/store/migrate.go:108-118 | An edited applied file makes Migrate fail; if every file before it is recorded, nothing at all is applied |
| `Migrations.EditedFileAppliesNothingIff` | internal/store/migrate.go:98-135 | With an edited file, nothing is applied exactly when the first unrecorded file does not commit |
| `Jobs.JobRegistry.HasRunningFor` | internal/web/jobs.go:167-177 | With jobs ending mid-scan: a hit was running when the scan began, a miss means none runs now |
| `Jobs.JobRegistry.OldestFinished` | internal/web/jobs.go:211-226 | Finds the oldest of the jobs it saw ended, which include all that had ended when the scan began |
| `Jobs.JobRegistry.EvictOldestFinished` | internal/web/jobs.go:211-230 | Removes exactly one ended job, the oldest of those seen ended, or nothing when none was |
| `Jobs.JobRegistry.Create` | internal/web/jobs.go:138-155 | Keeps size and one-running-job-per-client, and ended jobs stay ended; refuses only for a running client or a full registry of running jobs; what it evicts had ended and is oldest |
| `Jobs.JobRegistry.ValidMeans` | internal/web/jobs.go:138-230 | What every operation keeps: at most maxJobs jobs, at most one running job of a known client, and a finish time on exactly the ended jobs |
| `Jobs.JobRegistry.FindStale` | internal/web/jobs.go:241-253 | With jobs ending mid-scan: finds every job older than twice the ttl and every job that had ended more than the ttl ago; what it finds beside those has ended more than the ttl ago |
| `Jobs.JobRegistry.Sweep` | internal/web/jobs.go:241-253 | A job still running afterwards and not older than twice the ttl stays; a job that ended no more than the ttl ago and is not older than that stays; a job that had ended more than the ttl ago when the sweep began is gone, and so is every job older than twice the ttl; the others are untouched |
| `Sync.Pull` | internal/fetch/fetch.go:59-117 | Emits the steps in order with a fixed total, reserves the slot once the profile names the user, is refused exactly when that user was reserved less than 15 minutes ago, and skips collections that fail |
| `Sync.FetchesAllThatIsKept` | internal/api42/endpoints.go:22-33 | Everything curation keeps beside profile and titles is among the ten collections fetched |
| `Sync.PulledKeys` | internal/fetch/fetch.go:102-116 | A collection is in the snapshot exactly when it was fetched, as fetched |
| `Sync.SkippedCollectionKeepsOldValue` | internal/fetch/fetch.go:102-116 | A skipped collection keeps its stored value through curation and merge |
| `Sync.StepsInOrder` | internal/fetch/fetch.go:59-117 | The i-th progress event is step i of the fixed total, so the step never decreases or exceeds it |
| `Sync.WorkerEndsOnce` | internal/web/handlers.go:88-139 | A worker's job makes exactly one terminal transition, after all its steps and after the match it records |
| `Sync.StoreSnapshot` | internal/web/handlers.go:107-138 | Merges into the claiming account only when the 42 user is the expected one, else into the bound account if there is one |
| `Sync.WhereItGoes` | internal/web/handlers.go:107-138 | A claim by another 42 user goes nowhere, by the expected one to the claiming account; without a claim the account bound to the 42 user is found whenever there is one |
| `Sync.Settle` | internal/web/handlers.go:95-138 | A complete pull ends its job exactly once: merged and done with its match recorded first and the slot kept, or failed with the slot freed and no account changed |
| `Sync.StartSync` | internal/web/handlers.go:88-139 | Success keeps the slot and merges the curated snapshot; failure after the reservation frees the slot and changes no account; refusal changes nothing |
| `Sync.RunJob` | internal/web/oauth.go:103-132 | A cooling-down user's job fails at once with nothing changed; any other job gets one worker's whole log, and accounts and slots change as that worker's outcome says |
| `Calendar.FirstDayMonotone` | internal/snapshot/snapshot.go:294-310 | Month starts are strictly increasing over the real calendar, leap years included |
| `Calendar.MonthLengths` | internal/snapshot/snapshot.go:294-310 | The lengths of the twelve months, with a leap year every fourth year but for three centuries in four |
| `Calendar.ClockRuns` | internal/snapshot/snapshot.go:303-308 | One second later on the clock, carried over minutes, hours, days, months and years, is one second later on the time line |
| `Calendar.OffsetIsAhead` | internal/snapshot/snapshot.go:303-308 | A timestamp is its clock reading less the zone offset: 01:30 at +02:00 is 23:30 UTC of the day before |
| `Calendar.UtcDateExists` | internal/snapshot/snapshot.go:294-310 | Every instant has exactly one UTC calendar date |
| `Calendar.NormKeepsIndex` | internal/snapshot/snapshot.go:294-310 | Normalising month 0, 13 or 14 into the neighbouring year keeps the month index, the December and January wrap included |
| `Calendar.WindowIsThreeMonths` | internal/snapshot/snapshot.go:283-310 | A timestamp lies in the pool window if and only if its UTC month index is within one of the pool's |
| `Calendar.PathlessGrading` | internal/snapshot/snapshot.go:267-272 | Without a project path an evaluation is piscine-graded exactly when its UTC month is within one of a known pool month |
| `Calendar.PathDecides` | internal/snapshot/snapshot.go:254-272 | With a project path an evaluation is piscine-graded exactly when the path says piscine in any casing, whatever the dates |
| `Client.Request` | internal/api42/client.go:78-130 | Makes at most six attempts, going on exactly after a 429 or a status of 500 and above when nobody gave up; returns body and total of the last attempt exactly when that is a readable 200, else an error; waits the backoffs in between |
| `Client.WaitsDouble` | internal/api42/client.go:134-139 | Without Retry-After the waits before attempt n add up to 2^n - 1 seconds, at most 31 |
| `Client.WaitsAsTold` | internal/api42/client.go:134-139 | A positive Retry-After is waited out to the second; without one the waits are 1, 2, 4, 8 and 16 seconds |
| `Client.StopsWhenNeeded` | internal/api42/client.go:218-222 | The stop test fires exactly at the needed page: max(1, ceil(n/100)) with a known total, floor(n/100)+1 without |
| `Client.RequestsNeeded` | internal/api42/client.go:201-224 | With a known total the requests just cover the records at 100 each; without it one more is made when the last page was full |
| `Client.PagesOfHundred` | internal/api42/client.go:201-224 | Record i of the collection is record i mod 100 of page i/100 + 1 |
| `Client.GetAll` | internal/api42/client.go:201-224 | Returns the whole collection in order after exactly the needed requests, or an error at the first page that fails |
| `Sorting.SortInPlace` | internal/view/build.go:191-201 | The array becomes the stable sort of its old contents |
| `Sorting.SortPermutes` | internal/view/build.go:191-201 | Sorting keeps every element as often as it was |
| `Sorting.SortSorts` | internal/view/build.go:191-201 | Sorting by a strict weak order leaves no element before one that should precede it |
| `Sorting.SortCommutes` | internal/view/build.go:190-209 | Dropping what the comparator does not look at may be done before or after sorting |
| `Sorting.LessIsFirstDifference` | internal/view/build.go:191-200 | Strings compare by their first difference, a proper prefix before the longer one |
| `View.LeadsIsStrictWeak` | internal/view/build.go:191-200 | The cursus comparator is a strict weak order, so sorting by it is well defined |
| `View.LatestCursusLeads` | internal/view/build.go:184-209 | Exactly the first row is marked latest and no other cursus outranks it; with all start dates missing a piscine never leads while a real cursus exists |
| `View.BuildProfile` | internal/view/build.go:165-222 | The header holds the profile's names, the sorted cursus rows, and points and coalition exactly when the viewer may see them, badged when others may not |
| `View.IncludeSection` | internal/view/build.go:66-77 | A panel is there exactly when its section has data and the viewer may see it, with the private badge exactly for the owner of a non-public section |
| `View.Build` | internal/view/build.go:85-145 | An error page for an undecodable profile, else the header and exactly the visible panels with their bodies |
| `View.PrivateChoiceCounts` | internal/view/build.go:59-77 | A section the owner made private: a visitor has no panel, the owner has it, badged, exactly when there is data |
| `View.PublicChoiceCounts` | internal/view/build.go:59-77 | A section the owner made public: everybody has the panel exactly when there is data, without a badge |
| `View.ShownByDefault` | internal/view/build.go:47-64 | Without a choice everybody sees projects, both kinds of evaluations, quests, titles and achievements, without a badge |
| `View.HiddenByDefault` | internal/view/build.go:47-64 | Without a choice only the owner sees contact, correction points, events, locations and skills, badged |
| `View.HeaderChoices` | internal/view/build.go:165-220 | Points and coalition are shown to visitors exactly when the owner made them public, else to the owner alone, badged |
| `View.PanelBodies` | internal/view/build.go:85-145 | Contact shows the address, skills the ranking, achievements the profile's own list |
| `View.PanelRows` | internal/view/build.go:85-145 | Quests and titles show the stored rows in order; every other list shows all its rows, no later time after an earlier one |
| `View.HeaderRows` | internal/view/build.go:184-209 | The header lists every cursus once with name, grade and level, a later start first, at equal starts any before a piscine, then the higher level first; the first row alone is marked latest |
| `View.ZoneOfProfile` | internal/view/build.go:94-97 | Times are shown in the profile's zone when the zone database has it, else in the one known for its campus, if that is there |
| `View.OwnerWithoutPrivateIsVisitor` | internal/view/build.go:59-145 | Deleting every private panel, points card and badge from the owner's page gives the visitor's page, up to the order of equally strong skills |
| `View.VisitorSeesOnlyPublic` | internal/view/build.go:79-145 | The visitor's page does not depend on the data of any non-public section |
| `Skills.TopSkills` | internal/view/build.go:245-281 | Every skill appears exactly once with its best level, strongest first, numbered from 1, its bar relative to the strongest |
| `Skills.BestIsHighest` | internal/view/build.go:248-253 | The best level is the highest the skill has in any cursus, or zero when all are below |
| `Skills.TopSkillsUpToTies` | internal/view/build.go:255-281 | Two renderings of the same skills agree in level, bar and number at every place, whatever order the map is walked in |
| `Skills.BarsFill` | internal/view/build.go:266-279 | Bars lie between 0 and 100 percent, the first is full, and none is fuller than the one before it |
| `Skills.BarShares` | internal/view/build.go:266-279 | A bar's percentage is its level's share of the strongest level, rounded down |
| `Skills.EverySkillHasBar` | internal/view/build.go:245-281 | Every skill of every cursus has a bar at its level or higher |
| `Skills.BarsAttained` | internal/view/build.go:245-281 | A bar's level is one that some cursus gives the skill, or zero |
| `Skills.OneBarPerName` | internal/view/build.go:245-281 | No skill has two bars |

## Left out

- HTTP routing, cookies, cross-site checks, templates, assets, configuration, the command line and email sending: no state of their own that the model needs.
- JSON and SQL text: resources are typed records, malformed ones are a case of their own; each statement is one atomic map update, and database failures other than constraint violations appear only as a failing write at the end of a sync.
- Hashing, randomness and mail.ParseAddress: injective by the freshness assumptions, fresh values, and a function parameter.
- Text.ToLower: lower-cases the ASCII letters only; it decides about team names and piscine names. The address gate takes its lower-casing, like the database's, as an arbitrary function.
- Curation.Curate: profiles, coalitions, locations, events, quests and correction points are carried as they are, where the source copies some of their fields; evaluations, projects and titles are mapped field by field.
- Curation.CurateInto: the same.
- Store.Store.Open: connecting, migrating and loading the counters are not part of it; migrating is modelled on its own.
- Redaction.BracketLoginSurvives: exactly which logins with brackets survive is not stated.
- Photos, visibility and theme updates, statistics counters, downloads, the event stream and the secret-rotation reminder.
- rate.Limiter and Limiter.Wait: an unseen library; a failing wait is an attempt without a response.
- Limiter.AttemptLimiter: its map holds values, so sharing of a slice's storage between two readers is not modelled; Limiter.CompactInPlace shows the compaction on one array.
- Calendar.WindowIsThreeMonths: month names and years arrive parsed, and years are unbounded integers, so overflow of Go's time arithmetic in the far future is not modelled.
- Sorting.SortInPlace: stands for sort.Slice, as the insertion sort that library uses on short lists; on longer ones it may order ties otherwise, and only TopSkills is stated up to ties.
- Curation.SortLongestFirst: builds a new list where the source sorts in place, and leaves the order of equally long logins open.
- View.Build: panels carry the values their cells are formatted from; dates, summaries, tones and the attribution of legacy feedback are formatting and left out, and levels are real numbers.
- Store.Store.ReserveSync: the second query that reports the remaining wait runs at the same instant as the refused upsert.
- Store.Store.PeekToken: one method stands for the three peeks, and Store.Store.RedeemToken and Store.Store.SetToken for the four redemptions and issues, with the kind as a parameter.
- Jobs.JobRegistry.Sweep: deletes what it found at the end of the scan instead of during it.
- Sync.Pull: a profile without a user id ends the pull like a failed profile request, and progress names are left out.
- Requests.VerifiedStays: handlers do not interleave; AccountRuns.LateResendLosesAccount shows what a resend that straddles the click can do.
- Requests.OneHolderInRuns: that token hashes and ids of a run are fresh is assumed of its statements.
- Handlers.VerifyResend: the attempt caps around this and the other handlers are the boolean underCap; the limiter that computes it is modelled on its own; its check and charge are separate steps for token attempts.
- Migrations.Store.Migrate: the files arrive sorted by name with their version numbers read; listing the directory is left out.
