# jdShopServer: state machines and their properties

A Dafny model of the parts of the account server that carry state over whole runs. Each
machine is a module of its own, on the same plan: a `class` holds the fields or
tables that the Go code updates, and each of its methods is proved to make exactly one
step (or one row of steps) of a transition function on values. The theorems are about that
function: over all runs, all interleavings of its steps, and all clock readings allowed. Lemmas
whose name ends in `Exactly` say, in both directions, when a step gives each of its answers and
what it writes, in terms of the rows and the inputs alone.

| module | what it models |
|---|---|
| `RateLimit` | the fixed-window request limiter and its background purge |
| `RequestIds` | the replay cache of encrypted requests and the timestamp window in front of it |
| `ControlHubs` | the publish/subscribe hub, run alone and with its sends interleaved |
| `Announcements` | revisions, target lists and per-revision receipts |
| `Sessions` | refresh-token rotation, revoke-all and the per-account auth version |
| `Versions` | application releases and the per-platform "latest" flag |
| `Migrations` | the migration runner on the six files of `migrations/`, cut at any commit |
| `SmsLog`, `Sms`, `SmsSteps` | the log of sent codes with its three limits; captchas, sending and verification; what each step answers and writes, exactly |
| `Calendar`, `Rfc3339`, `Expiry`, `Layouts` | the Gregorian calendar, printed timestamps as text, `normalizeExpiry`, the texts its layouts read |

`Options`, `Text` and `SetFacts` are small helpers.

## How the source is read

- Tables are maps or sequences. A transaction, or a single SQL statement, is one step.
- Clock readings are arguments, in integer nanoseconds; stored text times are those cut to
  whole seconds. Every reading of the source is an argument of its own, so delays between two readings of
  one call are covered. No ordering of readings is assumed unless a lemma requires it; nothing about the
  SMS service assumes any.
- Random values, hashes, signatures, the SMS provider's answer and policy decisions made
  elsewhere are arguments. The hash of a code is injective and the hash of a refresh token
  is its table key. Storage calls do not fail.
- `Send` is three steps (captcha under its mutex; the checks under `sendMu`; the answer and
  the insert), a receipt call is two (read the revision; write the receipt), and a publish is one
  step per channel. `RefreshToken`, `VerifyCode` and `VersionRepo.Delete` are one step.
- 001 runs outside a transaction, so each of its 27 statements after the PRAGMAs commits alone;
  every other file commits together with its ledger row.

## Where the code does not do what it is for

Each of these is proved, by a concrete input or run, by the exact condition, or by both.

- The purge of the rate limiter is meant to be invisible. It is, except after a request that stamps its new visitor
  with one reading while the limiter that still had the expired visitor would stamp it with a
  later one (`RateLimit.PurgeInvisibleExactly`).
- The window limit is `limit` per window, yet a closed interval of one window can hold
  `2 * limit` admitted requests (`RateLimit.WindowBoundReached`), and never more (`RateLimit.WindowBound`).
- A request id is stored with a deadline from one clock reading and tested with a later one. A call that stalls between the
  two can pass with an envelope that was used before; it happens exactly when the first acceptance came
  less than the stall after the envelope's stamp (`RequestIds.ReplayExactly`).
- A migration run cut between two statements of 001 never recovers, because the next run
  finds `users` and records 001 as applied (`Migrations.CutInsideInitExactly`). A database
  with all six files applied by hand fails, because nothing detects 006 (`Migrations.UntrackedPrefix`).
- Clearing the flag of the latest release by an edit leaves its platform without one; that is
  the only way (`Versions.LatestFlag`).
- An expiry in year 9999 with a western offset is printed with a five-digit year, which no layout
  reads back (`Expiry.YearTenThousand`, `Expiry.IdempotentExactly`).

## Model

| member | source | states |
|---|---|---|
| `RateLimit.WindowBound` | internal/middleware/ratelimit.go:31-73 | any closed interval no longer than the window holds at most twice the limit of admitted requests from one address, from any table, with purges anywhere |
| `RateLimit.WindowBoundReached` | internal/middleware/ratelimit.go:44-62 | the factor two is attained, for every positive limit and window |
| `RateLimit.WithinTwoWindows` | internal/middleware/ratelimit.go:49-61 | what is left of an open window plus one more window is all that an interval can admit |
| `RateLimit.WithinOneWindow` | internal/middleware/ratelimit.go:55-61 | a window that outlasts the interval admits only what is left of it |
| `RateLimit.PurgeSimulation` | internal/middleware/ratelimit.go:31-58 | a purged table and one that is never purged give the same verdicts, since what is deleted is expired from then on |
| `RateLimit.PurgeInvisible` | internal/middleware/ratelimit.go:31-58 | purges placed anywhere change no verdict of a run whose requests stamp promptly |
| `RateLimit.PurgeVisible` | internal/middleware/ratelimit.go:49-58 | any readings that do not stamp promptly admit a run in which the purge shows |
| `RateLimit.PurgeInvisibleExactly` | internal/middleware/ratelimit.go:31-58 | the purge is invisible over all runs whose late requests have given readings if and only if those readings stamp promptly |
| `RateLimit.RefusedOnlyOverLimit` | internal/middleware/ratelimit.go:44-64 | after any run, with purges anywhere, a request is refused only if its address made at least `limit` requests within the last window |
| `RateLimit.RateLimiter.Handle` | internal/middleware/ratelimit.go:44-70 | one request: insert if missing, restart if expired, count, compare; the whole new table and the verdict |
| `RateLimit.RateLimiter.Cleanup` | internal/middleware/ratelimit.go:31-41 | the deleting loop removes exactly the expired visitors, each with its own clock reading |
| `RequestIds.RequestCipher.MarkRequestID` | internal/service/request_crypto.go:133-147 | purges the dead ids, then answers whether the id was unused and remembers it |
| `RequestIds.RequestCipher.Decrypt` | internal/service/request_crypto.go:82-100 | the checks before the cryptography, in order, with the verdict and the cache afterwards, as `GateExactly` and `VerdictExactly` spell out |
| `RequestIds.RunAgrees` | internal/service/request_crypto.go:133-147 | purging is invisible: cache and unpurged log remember the same ids from now on |
| `RequestIds.LogSpaced` | internal/service/request_crypto.go:93-98 | acceptances were timely, and the mutex was taken for a second acceptance of an id only after the first one's two minutes |
| `RequestIds.LastDeadlineDecides` | internal/service/request_crypto.go:137-145 | the last deadline of an id tells whether the full log has a recent acceptance |
| `RequestIds.RefusedExactly` | internal/service/request_crypto.go:93-100 | a call that reaches the cache is refused exactly when the full log has an acceptance of its id at most two minutes old |
| `RequestIds.GateExactly` | internal/service/request_crypto.go:87-97 | whatever the cache holds: which envelopes are refused, with which class, leaving the cache alone, and which get to it |
| `RequestIds.VerdictExactly` | internal/service/request_crypto.go:87-100 | after any run and for every call: it passes if and only if key, path, id and stamp are right and its id was not accepted within two minutes, and is a replay if and only if only the last fails |
| `RequestIds.PassesAtMostTwice` | internal/service/request_crypto.go:93-98 | without a stall one envelope passes at most twice, and once if its stamp was not ahead of the clock |
| `RequestIds.ReplayNeedsStall` | internal/service/request_crypto.go:93-98 | a second pass stalled longer than the first acceptance lay after the stamp |
| `RequestIds.ReplayExactly` | internal/service/request_crypto.go:93-100 | a replay with a bounded stall can pass if and only if the first acceptance came less than that after the stamp |
| `ControlHubs.ControlHub.Subscribe` | internal/service/control.go:23-32 | a fresh id with an empty open channel, subscribed for this user and no other; everything else unchanged |
| `ControlHubs.ControlHub.Unsubscribe` | internal/service/control.go:34-45 | the first call removes the subscriber and closes its channel, later calls do nothing, no user is kept without subscribers |
| `ControlHubs.ControlHub.PublishEvent` | internal/service/control.go:57-71 | exactly the channels of the user are sent to: each keeps the event it held, or takes this one, with its own time of issue or else the time of the call |
| `ControlHubs.ControlHub.Broadcast` | internal/service/control.go:73-87 | the same for every open channel; closed ones are untouched |
| `ControlHubs.ControlHub.Notify` | internal/service/announcement.go:187-200 | for a targeted announcement exactly the channels that a listed user holds are sent to, at the time of the first send to that user; for any other, exactly those that some user holds |
| `ControlHubs.FirstHolderExists` | internal/service/announcement.go:193-197 | a listed user that holds a channel has a first place in the list |
| `ControlHubs.HeldExactly` | internal/service/control.go:23-46 | a channel is open if and only if some user holds it |
| `ControlHubs.StepKeepsInvariant` | internal/service/control.go:23-87 | at every step of every interleaving subscribed channels are open, no send reaches a closed channel, and no client rests on a view older than it was told of |
| `ControlHubs.RunKeepsInvariant` | internal/service/control.go:23-87 | the same over every run |
| `ControlHubs.SendFills` | internal/service/control.go:63-70 | right after a send the open channel holds an event: the earlier one, or else the one sent |
| `ControlHubs.AddressedExactly` | internal/service/control.go:63-79 | a publish addresses exactly the channels of its user, and a broadcast exactly the open ones |
| `ControlHubs.RunKeepsTold` | internal/service/control.go:61-70 | who has been told of a version, or is still on a publisher's list, stays so over every run |
| `ControlHubs.PublishReachesAll` | internal/service/admin.go:52-55 | once a publish that followed a change is over, every client it addressed that is at rest has fetched that change |
| `ControlHubs.UninterruptedPublish` | internal/service/control.go:63-70 | sends one by one in any order leave the channels as the publish method does |
| `Announcements.AnnouncementRepo.Create` | internal/repository/announcement.go:45-70 | an unpublished row of revision 0 with its targets |
| `Announcements.AnnouncementRepo.Update` | internal/repository/announcement.go:219-246 | writes content and targets, raising the revision of a published row only |
| `Announcements.AnnouncementRepo.ReplaceTargets` | internal/repository/announcement.go:319-343 | the loop with its `seen` map stores exactly the distinct positive ids of a targeted draft and never inserts one twice |
| `Announcements.AnnouncementRepo.Publish` | internal/repository/announcement.go:248-258 | publishes with a revision of at least 1 above the old one |
| `Announcements.AnnouncementRepo.Unpublish` | internal/repository/announcement.go:260-267 | clears the flag, keeps the revision |
| `Announcements.AnnouncementRepo.MarkReceipt` | internal/repository/announcement.go:369-397 | read then upsert, with nothing in between, is the two steps in a row, whose effect is `FinishExactly` and `MarkIsCounted` |
| `Announcements.AnnouncementRepo.MarkDelivered` | internal/repository/announcement.go:345-367 | one upsert for each listed row, at the revision listed |
| `Announcements.AnnouncementRepo.ListForUser` | internal/repository/announcement.go:161-217 | the rows listed, and the two steps of a listing in a row |
| `Announcements.UpdateExactly` | internal/repository/announcement.go:219-246 | the columns stored are those given, the revision rises by one exactly if published, nothing else changes |
| `Announcements.CreateExactly` | internal/repository/announcement.go:45-70 | stored as given, unpublished, at revision 0, under the next id; nothing else changes |
| `Announcements.PublishExactly` | internal/repository/announcement.go:248-267 | publishing sets the flag and adds one to the revision, unpublishing clears the flag; nothing else changes |
| `Announcements.ListedExactly` | internal/repository/announcement.go:163-185 | a listing shows an announcement, at its current revision, if and only if it passes the filter, is published and is for all or for this user |
| `Announcements.MarkedExactly` | internal/repository/announcement.go:355-395 | upserts set the marked times that are not set yet, on exactly the receipts of the items, and nothing else |
| `Announcements.FinishExactly` | internal/repository/announcement.go:345-397 | a finished call leaves each of its items with the marked times set, the earlier ones kept; a delivery leaves the read and acknowledged times, a read the acknowledged one |
| `Announcements.CountedExactly` | internal/repository/announcement.go:118-123 | a user is counted if and only if the receipt for the current revision has that time |
| `Announcements.MarkIsCounted` | internal/repository/announcement.go:369-397 | who reads or acknowledges is counted, whatever is interleaved and whatever follows, while the revision stands |
| `Announcements.ListingIsCounted` | internal/repository/announcement.go:161-217 | the same for delivery of everything a listing showed |
| `Announcements.CountedOnlyIfAsked` | internal/repository/announcement.go:345-397 | in every reachable state, nobody is counted as having read or acknowledged without having made the call |
| `Announcements.LastWriteStands` | internal/repository/announcement.go:219-267 | over every run text and targets stay as last written until the next edit or deletion |
| `Announcements.UnpublishedStaysHidden` | internal/repository/announcement.go:169 | over every run an unpublished announcement is shown to nobody until it is published |
| `Announcements.MarkedKeeps` | internal/repository/announcement.go:355-366 | upserts remove nothing, change no time already set, keep every receipt in order, and add receipts only for the items given |
| `Announcements.RunKeepsInvariant` | internal/repository/announcement.go:161-397 | with edits between a call's read and its write, no receipt or call carries a revision above the current one, and every receipt is in order |
| `Announcements.SameRevisionSameContent` | internal/repository/announcement.go:219-267 | at any two moments when an announcement is published with the same revision its content and targets are the same |
| `Announcements.TargetsAsGiven` | internal/repository/announcement.go:319-343 | a user is a target exactly if the draft is targeted and lists that positive id |
| `Announcements.NewRevisionUnread` | internal/repository/announcement.go:226-255 | after a publish, or an edit while published, nobody has a receipt for the revision and no call in flight will write one |
| `Announcements.DeletedForGood` | internal/repository/announcement.go:269-272 | ids are not used again |
| `Announcements.ReceiptsOnlyGrow` | internal/repository/announcement.go:345-397 | over every run a receipt stays, its set times never change, and acknowledged implies read implies delivered |
| `Announcements.CountsInOrder` | internal/repository/announcement.go:115-124 | the listed counts satisfy acknowledged <= read <= delivered in every reachable state |
| `Sessions.AccountStore.UpdateStatus` | internal/repository/user.go:159-178 | one transaction: the status, and a version raised on disabling |
| `Sessions.AccountStore.UpdatePassword` | internal/repository/user.go:216-233 | one transaction: the hash and a version raised |
| `Sessions.AccountStore.BumpVersion` | internal/repository/user.go:170-173 | insert-or-ignore of 1, then the increment |
| `Sessions.AccountStore.UpdateUserStatus` | internal/service/admin.go:82-100 | the status first, then the refresh tokens of a disabled user |
| `Sessions.AccountStore.ChangePassword` | internal/service/user.go:64-99 | the password and version, then all refresh tokens, or nothing |
| `Sessions.AccountStore.RevokeAllForUser` | internal/repository/token.go:50-53 | the user's tokens are all revoked, the others untouched |
| `Sessions.AccountStore.Login` | internal/service/auth.go:148-180 | the step of a login; the token returned claims the current version |
| `Sessions.AccountStore.GenerateAccessToken` | internal/service/auth.go:271-290 | signs the version read now |
| `Sessions.AccountStore.RefreshToken` | internal/service/auth.go:203-262 | refused when unknown, revoked or expired; the spent token is revoked before the account is checked, as `RefreshExactly` spells out |
| `Sessions.AccountStore.Logout` | internal/service/auth.go:264-269 | revokes the token given |
| `Sessions.RefreshExactly` | internal/service/auth.go:203-254 | redeemed if and only if the row exists, is unrevoked and unexpired, its user has status 1, access admits and the new hash is fresh; the row stored; the spent one is left revoked, an expired one too |
| `Sessions.LoginExactly` | internal/service/auth.go:148-180 | successful if and only if the account has status 1, the checks admit and the hash is fresh; the row stored, no other touched |
| `Sessions.RevokeExactly` | internal/repository/token.go:45-53 | a logout revokes one token and a revoke-all exactly those of its user |
| `Sessions.AccountExactly` | internal/repository/user.go:159-233 | the status or hash is stored, the version rises by one exactly on disabling and on a new password, no other account and no token is touched |
| `Sessions.AcceptedExactly` | internal/middleware/auth.go:48-70 | which claims are accepted, malformed ones included |
| `Sessions.TokenLivesExactly` | internal/middleware/auth.go:53-70 | a token signed now is accepted after any run if and only if the run neither disabled its account nor changed its password, and leaves it enabled |
| `Sessions.StepKeepsInvariant` | internal/repository/user.go:159-233 | versions never go down and no token was signed with one above the current |
| `Sessions.RunKeepsInvariant` | internal/repository/user.go:159-233 | the same over every run |
| `Sessions.OldTokensRefused` | internal/middleware/auth.go:48-70 | after a disable or password change no token signed before, nor one without the claim, is accepted at any later step, re-enabled or not |
| `Sessions.CurrentTokenAccepted` | internal/middleware/auth.go:53-70 | a token with the current version is accepted exactly while the account is enabled |
| `Sessions.AbsentIsOne` | internal/repository/user.go:180-204 | no run tells a missing version row, or a missing claim, from version 1 |
| `Sessions.RunSameVersions` | internal/repository/user.go:180-204 | states that differ only in such rows give the same outcomes and the same acceptances |
| `Sessions.StepKeepsRevoked` | internal/repository/token.go:45-53 | rows stay and `revoked` never returns to 0; a redeemed token was unrevoked and is revoked |
| `Sessions.RedeemedOnce` | internal/service/auth.go:203-224 | a refresh token is redeemed at most once over any run, and not at all once revoked |
| `Sessions.RotateUnrevoked` | internal/service/auth.go:224-254 | a rotation does not raise the number of unrevoked tokens |
| `Sessions.SessionsBounded` | internal/service/auth.go:203-312 | a user's unrevoked tokens never outnumber the successful logins since the last revoke-all |
| `Versions.VersionRepo.Create` | internal/repository/version.go:19-43 | the new row is the only latest one of its platform; a taken version code is refused |
| `Versions.VersionRepo.Update` | internal/repository/version.go:128-191 | writes the fields given and no others, unflagging the platform first if the flag is set |
| `Versions.VersionRepo.Delete` | internal/repository/version.go:193-215 | removes the row and, if it was the latest, promotes one of the greatest remaining codes |
| `Versions.VersionRepo.CheckLatest` | internal/service/version.go:98-111 | offers the row of `FindLatest` when it is newer; offers nothing exactly when no latest row is |
| `Versions.GreatestExists` | internal/repository/version.go:208-210 | the ordered selection finds a row whenever there is one |
| `Versions.StepKeepsValid` | internal/repository/version.go:19-215 | unique platform and code, ids below the next one, at most one latest row each |
| `Versions.LatestFlag` | internal/repository/version.go:19-215 | each platform has at most one latest row, and one that has rows has exactly one if and only if no edit left it cleared |
| `Versions.StepFlag` | internal/repository/version.go:128-215 | exactly how each operation moves a platform between flagged and unflagged |
| `Versions.NeverCleared` | internal/repository/version.go:157-185 | a run without an edit that clears the flag leaves no platform cleared |
| `Versions.DeletePromotes` | internal/repository/version.go:63-79 | after the latest row is deleted the greatest remaining code is what `FindLatest` returns, and nothing else changed |
| `Versions.CreateExactly` | internal/repository/version.go:19-43 | stored as given and latest; its platform's others lose the flag only; a taken code changes nothing |
| `Versions.UpdateExactly` | internal/repository/version.go:128-191 | each column given is written and each other kept; other rows change in the flag only |
| `Versions.DeleteExactly` | internal/repository/version.go:193-215 | one row is removed, and only the promoted one of the others changes, in its flag |
| `Migrations.Runner.RunMigrations` | internal/repository/db.go:30-102 | the two loops reach the end state of the commit-by-commit system and report failure exactly when it fails |
| `Migrations.Runner.ExecuteInit` | internal/repository/db.go:75-78 | 001 adds all its objects, one commit each |
| `Migrations.ExecFile` | migrations/005_phone_sms_auth.sql:3-23 | each of 002 to 006 takes the schema of its predecessors to its own; 005 also from a stray phone column |
| `Migrations.CommitKeepsGood` | internal/repository/db.go:54-99 | no commit of a run from a healthy database fails or leaves it unhealthy |
| `Migrations.CutKeepsGood` | internal/repository/db.go:76-81 | a cut anywhere but between two statements of 001 leaves a healthy database, also between 001 and its ledger row |
| `Migrations.RunsConverge` | internal/repository/db.go:30-153 | any number of runs so cut commit each file's effect at most once, in sorted order, never fail, and are complete when finished |
| `Migrations.HealthyCompletes` | internal/repository/db.go:30-102 | an uninterrupted run from a healthy state ends with the full schema and ledger |
| `Migrations.FullIsFixed` | internal/repository/db.go:54-61 | a further run changes nothing |
| `Migrations.UntrackedPrefix` | internal/repository/db.go:104-153 | empty, untracked-prefix and phone-column databases complete; all six files untracked fails |
| `Migrations.StuckForever` | internal/repository/db.go:116-126 | after a cut inside 001 no continuation reaches the full schema |
| `Migrations.CutInsideInitExactly` | internal/repository/db.go:75-81 | a run cut inside 001 can recover if and only if nothing, or everything, of it was executed |
| `SmsLog.LastTo` | internal/repository/sms_verification.go:27-59 | the newest row of the phone, if any |
| `SmsLog.Latest` | internal/repository/sms_verification.go:88-114 | the newest row of the phone and purpose, if any |
| `SmsLog.CountsSelectWindow` | internal/repository/sms_verification.go:61-86 | the two counts by text comparison select exactly the rows in the time window, for years 0000 to 9999 |
| `SmsLog.MidnightIsDayStart` | internal/service/sms.go:148-149 | midnight from year, month and day in UTC+8 is the start of the day by division, for every instant |
| `SmsLog.EntryFacts` | internal/service/sms.go:145-163 | what the three checks mean in stored seconds |
| `SmsLog.PhoneGap` | internal/service/sms.go:141-147 | sends to one phone, across purposes, are at least 60 stored seconds and more than 59 real seconds apart |
| `SmsLog.DailyBound` | internal/service/sms.go:148-156 | at most 6 sends to a phone on any calendar day in UTC+8 |
| `SmsLog.HourlyBoundStored` | internal/service/sms.go:157-163 | at most 20 sends from an address in any closed hour of stored seconds |
| `SmsLog.HourlyBoundReal` | internal/service/sms.go:157-163 | the same in real time, although cutoff and rows are cut to seconds |
| `SmsLog.CodesAlternate` | internal/service/sms.go:164-180 | two successive sends to a phone never carry the same code |
| `Sms.SMSService.IssueCaptcha` | internal/service/sms.go:95-99 | drops the expired captchas, then stores the new one |
| `Sms.SMSService.CleanupCaptchas` | internal/service/sms.go:257-263 | the deleting loop leaves exactly the unexpired captchas |
| `Sms.SMSService.VerifyCaptcha` | internal/service/sms.go:106-115 | the captcha is gone whether or not it passed |
| `Sms.SMSService.PickCode` | internal/service/sms.go:168-180 | the retry loop takes the first of five draws that differs from the last code |
| `Sms.SMSService.SendLocked` | internal/service/sms.go:131-203 | the checks in order; a row is added only after the provider accepted |
| `Sms.SMSService.Send` | internal/service/sms.go:117-204 | run alone, the three steps in a row |
| `Sms.SMSService.VerifyCode` | internal/service/sms.go:206-229 | judges the newest row of the phone and purpose, counts a wrong guess, uses the code up, as `SmsSteps.VerifyExactly` and `SmsSteps.VerifyWrites` spell out |
| `Sms.RunKeepsInvariant` | internal/service/sms.go:82-229 | the log obeys the limits, a send in flight still meets them, attempts stay in range, and each send has used a captcha, over any interleaving |
| `Sms.SendLimits` | internal/service/sms.go:117-204 | the three limits hold in every reachable state, for every clock, even one that jumps back |
| `Sms.SendsNeedCaptchas` | internal/service/sms.go:106-127 | recorded sends never outnumber the captchas issued |
| `Sms.AcceptedMeans` | internal/service/sms.go:211-228 | an accepted code is the newest row of its phone and purpose, unused, right, and sent at most five minutes before |
| `Sms.AcceptedOnce` | internal/service/sms.go:218-228 | a code is accepted at most once over any run, and not at all once used up |
| `Sms.RunAttempts` | internal/service/sms.go:221-227 | the attempts stored are exactly the wrong guesses made |
| `Sms.AttemptsBounded` | internal/repository/sms_verification.go:116-126 | no more than five attempts for each code of the day |
| `Sms.WrongGuessesBounded` | internal/service/sms.go:206-229 | the codes sent to a phone on one day in UTC+8 absorb at most 30 wrong guesses |
| `SmsSteps.VerifyExactly` | internal/service/sms.go:206-229 | accepted if and only if the newest row of the call's phone and purpose is unused, unexpired in stored seconds, below five attempts and carries the code; a wrong guess if and only if only the last two fail |
| `SmsSteps.VerifyRefusedExactly` | internal/service/sms.go:207-220 | the other answers: malformed phone, no such row, newest one used up or expired |
| `SmsSteps.VerifyWrites` | internal/repository/sms_verification.go:116-131 | an accepted code is used up, a wrong guess is counted and the fifth uses the code up, no other row changes |
| `SmsSteps.CheckExactly` | internal/service/sms.go:118-127 | a request goes on if and only if phone and purpose are valid and the captcha is there, unexpired and solved; the captcha tried is gone either way |
| `SmsSteps.FoldExactly` | internal/service/sms.go:111 | captcha characters match in either case, and nothing else does but the Kelvin sign and the long s |
| `SmsSteps.IssueExactly` | internal/service/sms.go:95-98 | the new captcha lasts five minutes and exactly the unexpired ones stay |
| `SmsSteps.LimitedExactly` | internal/service/sms.go:141-163 | which of the three limits refuses, in order, by the rows in the gap, the day and the hour |
| `SmsSteps.StartExactly` | internal/service/sms.go:131-180 | the provider is asked if and only if the gateway is ready, the limits have room and a draw is fresh, with the first fresh draw |
| `SmsSteps.SendExactly` | internal/service/sms.go:117-204 | an uninterrupted send records a row if and only if every check passes and the provider delivers, and the row says what was sent |
| `SmsSteps.SentCodeAccepted` | internal/service/sms.go:206-229 | in every reachable state a code not used up is accepted later, in time, whatever runs in between, unless a newer one was sent there or one was entered there |
| `Calendar.BeforeIsEarlier` | internal/repository/sms_verification.go:61-86 | calendar fields compared from the year down order instants, and determine them |
| `Calendar.CivilOfSeconds` | internal/service/sms.go:148-149 | instants and calendar fields determine each other |
| `Rfc3339.TextOrder` | internal/repository/sms_verification.go:61-86 | comparing printed timestamps as text compares the instants, for years 0000 to 9999 (section 5.1 of RFC 3339) |
| `Rfc3339.FourDigitYearExactly` | internal/repository/sms_verification.go:64-66 | the range of instants taken for years 0000 to 9999 is exactly the one whose calendar year has four digits |
| `Rfc3339.FormatRoundTrip` | internal/repository/sms_verification.go:133-139 | a stored timestamp is read back as the instant it was printed from |
| `Rfc3339.OtherYearsUnreadable` | internal/service/access.go:131-136 | a timestamp printed with any other year is read by none of the four layouts |
| `Rfc3339.FieldsRoundTrip` | internal/service/access.go:131-140 | fields printed with any readable zone are read back with that zone's offset |
| `Expiry.NormalizeExpiry` | internal/service/access.go:127-143 | the loop over layouts takes the first that accepts |
| `Expiry.NormalizePrinted` | internal/service/access.go:131-141 | a printed timestamp normalises to itself, or is rejected when its year does not have four digits |
| `Expiry.IdempotentExactly` | internal/service/access.go:127-143 | normalising twice is normalising once if and only if the result lies in years 0000 to 9999 |
| `Expiry.YearTenThousand` | internal/service/access.go:140-143 | a concrete input whose result is rejected when submitted again |
| `Expiry.BareDateEndsItsDay` | internal/service/access.go:137-141 | a bare date becomes 23:59:59 UTC of that day |
| `Expiry.BareDateRead` | internal/service/access.go:131-132 | every bare date with a four-digit year is read as one |
| `Layouts.MinuteNormalized` | internal/service/access.go:131-140 | a date with hours and minutes becomes that minute in UTC |
| `Layouts.SecondNormalized` | internal/service/access.go:131-140 | a date, a blank and a time of day become that second in UTC |
| `Layouts.OffsetNormalized` | internal/service/access.go:140 | a timestamp with an offset is converted to UTC |
| `Layouts.ReadOnlyInForm` | internal/service/access.go:131-136 | whatever one of the layouts reads is an existing date in that layout's form, read as that moment |
| `Text.TrimSpaceExactly` | internal/service/sms.go:75 | what is trimmed on both sides is space, and what is left neither begins nor ends with any |

## Left out

- HTTP handlers, router, CORS, JSON, static page, configuration and deployment: no state of their own.
- bcrypt, JWT signing, RSA/AES, HMAC, the SMS provider's request and random sources: arguments or injective functions.
- The captcha image: floating-point drawing.
- The login lockout count: its rows and its cutoff are printed in different formats, so no claim about a time window holds of it.
- `starts_at` and `ends_at` as bounds in time: they keep the sender's offset and are compared as text. The listing's filter is the argument `selected`, and the availability check before a receipt is dropped, which only adds behaviours.
- The merge of a partial announcement edit in the service: the theorems hold for whatever content and targets are written.
- Deleting an announcement: an event of the state machine only, with the foreign-key cascade as an argument because the driver's setting is not visible.
- Channels are table entries named by subscriber id, so the aliasing of a channel between the hub and its client is not captured; `nextID` does not wrap.
- Overlapping calls of `RefreshToken`, of `VerifyCode` or of `VersionRepo.Delete`: they read and later write without a lock, and are one step here.
- The counts of `Send` compare times; that SQLite's text comparison agrees is `SmsLog.CountsSelectWindow`, for years 0000 to 9999.
- `strings.EqualFold` between two texts beyond ASCII: the stored captcha codes are ASCII.
- 64-bit overflow, saturation of durations, and the rounding of claims above 2^53 to floating point.
- Partly applied 005 other than the stray phone column, databases edited by hand in other ways, and sorting of directory entries: the six file names are taken in their order.
- Account policy rows and `Evaluate`, the super-admin guard, role operations, pagination, profile edits and heartbeats: easy members or arguments.
- `TokenRepo.DeleteExpired`, which nothing calls.
