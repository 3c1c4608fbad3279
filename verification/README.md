# A verified model of the alumni backend's algorithms

The backend is mostly wiring, but some of its parts are algorithms that must hold over whole runs: a backup
tool whose history must stay complete, rate limiters and an alert protocol that work across tasks and
instances, a search that parses what people type, and several traversals and summaries. This project models
those parts in Dafny 4.11 and proves what they are for. `dafny verify dfyconfig.toml` checks all of it.

| file | models |
|---|---|
| `BucketWalk`, `BucketTree` | the paged walk of the storage bucket, and what it returns of a finite folder tree |
| `BackupFolders`, `Retention` | run folders, their names, and pruning |
| `BackupRun`, `BackupHistory` | one backup run, and whole histories of runs, damage, reuse and pruning |
| `Redaction` | removing secrets from text |
| `RateLimit`, `RateLimitHistory` | the sliding log in its bounded bucket, against a limiter that forgets nothing |
| `WindowBudgets` | several windows at once: all or nothing, and one shared history |
| `ThrottleAlert` | one alert per cooldown, with tasks interleaved at their await |
| `ExportBudget` | the export budget counted from the audit tables by every instance, and the rerouting of rows |
| `RouteScan` | which routes a scan sees, and what it reports |
| `FailureWindow` | the in-process failure gate |
| `EmailReach` | who can be e-mailed, in Python and in SQL |
| `SearchTerms`, `FriendId`, `Relevance` | free-text parsing, friend ids in it, and the ranking tiers |
| `AlumniOrder` | the list's order and its pages |
| `Semesters` | the semester calendar on the clock of Denver |
| `OrphanListing`, `OrphanDeletion` | the tool that lists, reconciles and deletes staged photos |
| `Wrappers`, `Text`, `Numerals`, `Sorting`, `Counting` | options, strings, numerals, sorting, set sizes |

How it is written. Code that updates state in place is a class or a method with loops, proved against a
function of its inputs or its old state; the lemmas then are about that function. Protocols (alerts, exports,
backup histories) are state machines: a step, an invariant every step keeps, and theorems over every run.
What the code gets from outside is a parameter: clock readings, listing pages, downloads and copies that may
fail, deletes that may fail, the hash (an injective function where the theorem says so), the trigram
similarity (a number from 0 to 1), the text collation (any total preorder), the matching rows of a query.

Where the code and its documentation part, the model follows the code:

- `_check_windows` promises all windows or none. It reads the clock more than once, and when a hit ages out
  between two readings it records the call in a window and refuses it (app/core/rate_limit.py:788-813).
  `AllOrNothingIff` gives the exact condition.
- An actor pushed out of its bucket by ten thousand others starts with a clean budget
  (app/core/rate_limit.py:96-103). The limiter's theorems hold for actors that were not; `OutAgedActorGetsCleanBudget`
  shows why they must say so.
- `plan_prune` spares the current run even when it is not among the newest, and counts runs of every project
  (scripts/backup_prod.py:1089-1103). The dry run therefore predicts exactly only under the condition of `DryRunIsExactIff`.
- Redaction can leave a secret that contains a bracket (scripts/backup_prod.py:374-379): `BracketCanShowThrough`,
  and `ShowsIff` for exactly which.
- A marker is cleaned when it is listed and, once recorded, again when it is compared (scripts/backup_prod.py:430-435,
  1013): one with whitespace inside its quotes can be taken for another. `ChangedMarkerIsDownloaded` says when it cannot,
  `ASpaceInsideQuotesIsLost` gives a case.
- The failure gate dates a first window from the clock's zero (app/core/failure_monitor.py:86-92): `SustainedIff`.
- The export budget is documented as the caller's exports inside each window. The rows are stamped with the start
  of their transaction (app/models/audit.py:31-34, 46-48), which the guard before the count has already opened, and
  the count reads a clock of its own (app/core/rate_limit.py:885-893). So a full window can hold one export over the
  limit even one at a time: `OneOverTheLimitInAFullWindow`. `BudgetHoldsIff` says in which intervals the budget holds.
- `walk_bucket` and `walk_listing` strip every name before they join it (scripts/backup_prod.py:467,
  scripts/survey_pending_orphans.py:188), so an object whose name has whitespace at an end is listed under another
  key, and a run over such a bucket can be recorded OK without it: `WalkIsExactIff`, `AllOkRunsAreCompleteIff`,
  `TwoFilesAreRecordedOk`, `ListsIffTrimmed`.
- For such an object the photo tool reports a deletion that removes nothing: it deletes the path it listed, and to
  delete what is not there counts as done (app/services/supabase_storage.py:278, 295-296). It says "Deleted 1" and
  finds the same orphan on every later run: `ASpacedPhotoStays`. `SecondRunFindsNothingIff` gives the exact condition.
- Where the file system folds names, say by case, two keys can land in one file and the counters still pass
  (scripts/backup_prod.py:1520-1541): `CompleteWhereNamesFoldIff`.
- SQL `btrim` takes spaces only, Python `strip` all whitespace (app/core/email_reach.py:148-173): `TwinsAgreeIff`.
- "Friend 42" is documented as naming record 42, yet the search sees two words and does not look it up
  (app/core/friend_id.py:43-50, app/repositories/alumni_search.py:398-406): `SearchLooksItUpIff`.
- "Exact and prefix matches always outrank approximate ones" (app/repositories/alumni_search.py:137-141) holds for
  exact hits, and for others only as `OutranksIff` says.
- The ORDER BY is documented as always tie-broken by last name; `updated` is broken by the key alone
  (app/repositories/alumni.py:351-356). The order is total either way.
- The photo tool reads the rows before it lists the bucket (scripts/survey_pending_orphans.py:410-422), so a row
  written in between does not protect its photo: `ALateRowLosesItsPhotoIff`.

## Model

| member | source | states |
|---|---|---|
| `BucketWalk.WalkBucket` | scripts/backup_prod.py:440-488 | Against any answers whatever, arbitrary pages included, the walk makes at most 500 fetches; what it returns is the functional walk `Walked`, which the lemmas of `BucketTree` are about. |
| `BucketWalk.CleaningIsWhatItSays` | scripts/backup_prod.py:430-435 | A raw marker cleans to m if and only if it is m between quotes between whitespace, m having no quote at an end; to nothing when m is empty. For any text. |
| `BucketWalk.ListedMarkers` | scripts/backup_prod.py:476-483 | The etag an object is listed with is what `eTag` says, or where that says nothing what `etag` says; the same of `updated_at` and `lastModified`. |
| `BucketTree.FindBelow` | scripts/backup_prod.py:472-484 | Below the folder a path leads to, the path of a name leads to exactly the sub-folder of that name, or nowhere when there is none; for any slash-free name. |
| `BucketTree.WalkOneFolder` | scripts/backup_prod.py:458-486 | Paging one folder from any offset reads each of its remaining rows once, whatever their names, at a cost of rows / page size + 1 pages, or reports the cap. |
| `BucketTree.WalkReturnsWhatItSees` | scripts/backup_prod.py:440-488 | For every finite folder tree with slash-free names, trimmed or not: the walk succeeds if and only if the pages of the folders its stripped prefixes lead to are at most 500; it then returns exactly the objects under their stripped keys, sorted; otherwise it fails for too many pages and nothing else. |
| `BucketTree.WalkReturnsEverythingIffItFits` | scripts/backup_prod.py:440-488 | When no name has whitespace at an end, those are the objects and pages of the tree itself: the walk succeeds if and only if the sum over folders of rows / page size + 1 is at most 500, and then returns every object exactly once. |
| `BucketTree.WalkReturnsTheBucketIffTrimmed` | scripts/backup_prod.py:467-486 | Once its pages fit, the result is the bucket's objects if and only if no name has whitespace at an end; otherwise some object's key is not in the result at all. |
| `BucketTree.WalkIsExactIff` | scripts/backup_prod.py:440-488 | So the walk returns every object of the bucket, each once, if and only if no name has whitespace at an end and the pages fit. |
| `BucketTree.SeenComesFrom` | scripts/backup_prod.py:467-486 | Whatever the walk sees is an object of the tree, seen under the name that the object's own path says. |
| `BucketTree.ObjectIsSeenAs` | scripts/backup_prod.py:467-486 | An object is seen whenever its path says so: its directories are trimmed and its own name is not blank; and under its directories and its stripped name. |
| `BucketTree.SeenNameIs` | scripts/backup_prod.py:467-486 | That name, by directory and name: nothing when a directory has whitespace at an end or the name is blank, else the directory and the stripped name. |
| `BucketTree.TwoFilesOneKey` | scripts/backup_prod.py:467-486 | A bucket of the two files ' a' and 'a': the walk returns the key 'a' twice. |
| `BucketTree.KeysAreDistinct` | scripts/backup_prod.py:491-498 | No two objects of a bucket share a key, files and same-named folders included. |
| `BucketTree.KeysStrictlyIncrease` | scripts/backup_prod.py:440-498 | Of a trimmed bucket the keys returned are strictly increasing, so no key is returned twice. |
| `BucketTree.WholeKeysAreWalkedAlike` | scripts/backup_prod.py:472-498 | A service that answers whole keys instead of names, and folders with a slash, is walked alike, of any trimmed bucket: the same objects, or the same error. |
| `BackupFolders.StampOrderIsTimeOrder` | scripts/backup_prod.py:826-828 | For instants with a four-digit year, the string order of two stamps is the time order of the instants, both ways. |
| `BackupFolders.StampIsARunName` | scripts/backup_prod.py:145 | Every stamp is recognised as a run folder's name. |
| `BackupFolders.RunNameIff` | scripts/backup_prod.py:145 | A name counts as a run folder's if and only if it is a year, a month, a day and a time in digits with the stamp's marks between them, with or without a newline behind. |
| `Retention.BackupDir.PruneOldRuns` | scripts/backup_prod.py:1106-1125 | Deletes the planned folders in order up to the first whose deletion raises, leaves that one with whatever files and manifest the failed deletion left it, and touches no other entry of the directory. |
| `Retention.PrunedFacts` | scripts/backup_prod.py:1106-1125 | What is left after pruning: every folder not in the plan, unchanged; and nothing but what was there, one of them damaged perhaps. |
| `Retention.PrunedIff` | scripts/backup_prod.py:1089-1103 | A folder is pruned if and only if it is an OK run, has at least `keep` newer OK runs and is not the current one; so never a FAILED run, and never a folder without a readable manifest. |
| `Retention.NewestIsNotPruned` | scripts/backup_prod.py:1089-1103 | The newest OK run is never in the plan. |
| `Retention.AnOkRunRemains` | scripts/backup_prod.py:1089-1125 | If an OK run exists before pruning, one exists after it. |
| `Retention.SurvivorCount` | scripts/backup_prod.py:1100-1103 | Exactly min(keep, n) OK runs survive, or one more when the current run is itself not among the `keep` newest. |
| `Retention.FreshRunTakesItsPlace` | scripts/backup_prod.py:911-925 | Adding an OK run puts it at its own place in the newest-first list of OK runs and moves no other. |
| `Retention.DryRunIsExactIff` | scripts/backup_prod.py:1328-1335 | The dry run names exactly the folders the real run would delete if and only if fewer than `keep` OK runs are newer than that run; in particular whenever it is the newest. |
| `Retention.ANewerRunMisleadsTheDryRun` | scripts/backup_prod.py:1328-1335 | With one OK run stamped after the simulated one and one to keep, the dry run names a folder that the real run spares. |
| `BackupRun.PlanIncremental` | scripts/backup_prod.py:973-1029 | Splits the listed objects, in order, into those to reuse and those to download, each download with a reason, and lists exactly the recorded keys no longer listed, sorted. |
| `BackupRun.PlanReusesIffSafe` | scripts/backup_prod.py:973-1029 | An object is reused if and only if the previous record has a hash and the same size, what one of its raw markers says is the marker the object is listed with, and what neither says is another; every other object is downloaded. |
| `BackupRun.ReasonsAreTrue` | scripts/backup_prod.py:994-1029 | The reason given for a download holds: no record, no hash, another size, a marker that says another, or none that both have. |
| `BackupRun.ChangedMarkerIsDownloaded` | scripts/backup_prod.py:998-1029 | Whatever its size, an object is downloaded when a marker it was recorded with, without whitespace inside its quotes, is not the one it is listed with now. |
| `BackupRun.ASpaceInsideQuotesIsLost` | scripts/backup_prod.py:998-1029 | Two listings whose unquoted etags are ' a' and 'a' count as unchanged, since a recorded marker is cleaned again. |
| `BackupRun.StorageRecordsFacts` | scripts/backup_prod.py:960-970 | The previous records are exactly the manifest's entries below `storage/`, under their object keys. |
| `BackupRun.SafeKeyIff` | scripts/backup_prod.py:501-521 | The accepted keys are those without a backslash or colon in which no part between slashes is empty or made of one or two dots. |
| `BackupRun.OneTurn` | scripts/backup_prod.py:1506-1547 | One object's turn: raise for an unsafe key; store the previous file when it can be copied and has the listed size and the recorded hash; else download, and store, report a wrong length, or raise. With the counters and the record of each. |
| `BackupRun.RecordedOkIff` | scripts/backup_prod.py:1450-1580 | A run ends without a failure if and only if it found at least 1400 alumni, both dumps came and are not empty, the bucket listed some objects and each of them is stored in its turn, and the dump lists the alumni table. |
| `BackupRun.WhatAnOkRunHolds` | scripts/backup_prod.py:1506-1541 | After a run without a failure, of a listing that names no key twice, each object is stored with the previous run's file when that verifies, and else with what was downloaded. |
| `BackupRun.Run.CaptureObjects` | scripts/backup_prod.py:1506-1541 | The capture loop leaves the counters, the files on disk and the manifest entries of the functional capture: copy with a hash check, fall back to a download, record the length mismatch, stop at what raises. |
| `BackupRun.Run.RunSteps` | scripts/backup_prod.py:1450-1580 | The steps end, failing or not, with the outcome of the functional run: what is stored, recorded and counted, and every reason for failure, in the order the code gives them. |
| `BackupRun.RaisedStays` | scripts/backup_prod.py:1506-1541 | Once a capture has raised, nothing after it changes what was captured. |
| `BackupHistory.FindPreviousOkRun` | scripts/backup_prod.py:928-948 | Returns the newest folder, not a link, named like a run and not excluded, whose manifest can be read, says OK and is of the project; or none when there is none. |
| `BackupHistory.ReusesFromTheNewest` | scripts/backup_prod.py:1339-1392 | A run that is not incremental reuses nothing; an incremental one reuses from the newest such folder, by its records and its files. |
| `BackupHistory.TrimmedIsConsistent` | scripts/backup_prod.py:440-488 | Of a trimmed bucket the walk that a run makes lists every key once and no other. |
| `BackupHistory.WhatIsStored` | scripts/backup_prod.py:1032-1063 | Given an injective hash, whichever way one object is captured (copied from a folder damaged in any way, or downloaded), what is stored is what the bucket holds, or nothing is stored. |
| `BackupHistory.CaptureIsFaithful` | scripts/backup_prod.py:1506-1541 | After any number of objects, the folder holds exactly the captured objects' bytes and the manifest records exactly their sizes, hashes and markers. |
| `BackupHistory.OkStepsAreComplete` | scripts/backup_prod.py:1450-1580 | A run that ends without a failure stored and recorded exactly the bucket it listed, when the listing names every key once. |
| `BackupHistory.PreviousTells` | scripts/backup_prod.py:973-1029 | What an incremental run may reuse, by the records of a grounded run (one that found the bucket trimmed, and whose chain of reuse did), has the hash of what the bucket holds now. |
| `BackupHistory.LyingMarkersGoStale` | scripts/backup_prod.py:973-1063 | And that needs the markers to tell: where two versions of an object say the same and are not the same, an incremental run that can copy the earlier one is recorded OK with it, and lacks what the bucket holds. |
| `BackupHistory.BackUpKeepsInv` | scripts/backup_prod.py:1339-1447 | A backup run of any kind and outcome, pruning that raises included, keeps every readable OK manifest of a grounded run truthful about the bucket that run backed up. |
| `BackupHistory.DamageKeepsInv` | scripts/backup_prod.py:889-908 | So does any change to the files of old folders, losing a manifest, or removing a folder by hand. |
| `BackupHistory.HistoryKeepsInv` | scripts/backup_prod.py:1339-1447 | So does every history of runs, damage and removals, by induction over its steps, with no condition on what the runs found. |
| `BackupHistory.EveryOkRunIsComplete` | scripts/backup_prod.py:1339-1447 | Over every history, each run recorded OK that found the bucket trimmed, as did the runs down its chain of reuse, holds in its own folder exactly the objects and bytes of the bucket during that run, whatever else ran, failed, pruned or was damaged; given an injective hash, one bucket state per run, and equal change markers meaning equal content. |
| `BackupHistory.UntrimmedRunIsIncomplete` | scripts/backup_prod.py:467-486 | A run recorded OK over a bucket with whitespace at the end of a name lacks an object, whatever came before it. |
| `BackupHistory.AllOkRunsAreCompleteIff` | scripts/backup_prod.py:1339-1447 | Over any history, all the runs recorded OK are complete if and only if all of them found the bucket trimmed. |
| `BackupHistory.DiskIsWhatWasWritten` | scripts/backup_prod.py:1520-1541 | The folder a capture leaves is its writes, applied in order. |
| `BackupHistory.ReadsBackIff` | scripts/backup_prod.py:1520-1541 | On a file system that keeps a file under some folded form of its name, whatever was written reads back if and only if names that fold together were last given the same bytes; for any writes and any folding. |
| `BackupHistory.CompleteWhereNamesFoldIff` | scripts/backup_prod.py:1520-1575 | On such a file system, the folder of a grounded run recorded OK gives back every object of the bucket if and only if keys that fold together have the same bytes. |
| `BackupHistory.TwoFilesAreRecordedOk` | scripts/backup_prod.py:1506-1575 | A first run over the two files ' a' and 'a' of one size that is recorded OK and lacks one of them. |
| `BackupHistory.AnOkRunAlwaysRemains` | scripts/backup_prod.py:1106-1125 | While nobody edits the directory by hand, a state with an OK run is followed by one with an OK run. |
| `BackupHistory.RunsDeleteOnlyOldOkRuns` | scripts/backup_prod.py:1393-1402 | A run deletes or damages only OK runs, each with at least `keep` newer OK runs, never itself, and nothing when it fails. |
| `BackupHistory.WhatARunLeaves` | scripts/backup_prod.py:1339-1447 | A run changes nothing when a folder of its name exists. Otherwise it leaves its folder, with what it captured and a manifest of exactly that; every old folder that is no surplus OK run; and none that is, when every deletion works. |
| `Redaction.Redact` | scripts/backup_prod.py:374-379 | The loop computes the successive replacement of the distinct non-empty secrets, longest first. |
| `Redaction.PassOrderFacts` | scripts/backup_prod.py:374-379 | The passes are over every non-empty secret once, longest first. |
| `Redaction.NothingNew` | scripts/backup_prod.py:374-379 | A replacement creates no occurrence of a string that does not overlap the marker. |
| `Redaction.ReplacedIsGone` | scripts/backup_prod.py:374-379 | A secret that does not overlap the marker occurs nowhere after its own pass, not even across the seams. |
| `Redaction.NoSecretSurvives` | scripts/backup_prod.py:374-379 | When no secret overlaps the marker, none occurs anywhere in the output: not in the text, not across a seam, not by a later pass. |
| `Redaction.SecretFreeTextIsUnchanged` | scripts/backup_prod.py:374-379 | Text that holds no secret comes through unchanged. |
| `Redaction.WholeSecretBecomesTheMarker` | scripts/backup_prod.py:374-379 | A text that is one whole secret becomes the bare marker, whatever shorter secrets are part of it. |
| `Redaction.HidesIffNotPartOfTheWord` | scripts/backup_prod.py:374-379 | For secrets without brackets: no text shows a secret after redaction if and only if no secret is part of the word REDACTED. |
| `Redaction.BracketCanShowThrough` | scripts/backup_prod.py:374-379 | A secret with a bracket, and a text in which it still shows after redaction. |
| `Redaction.ShowsIff` | scripts/backup_prod.py:374-379 | For one secret of any characters: some text shows it after its own pass if and only if it is part of the marker, or goes on from an end of the marker, or from some position runs as the marker does and could not have been replaced earlier. |
| `Redaction.TwoBracketsNeverShow` | scripts/backup_prod.py:374-379 | '[[' overlaps the marker's front and can never show. |
| `RateLimit.Limiter.Check` | app/core/rate_limit.py:113-146 | One check of a bucket changes that bucket alone, to `Checked` of it, and admits if and only if fewer than `limit` live hits are logged; the bucket stays well-formed. |
| `RateLimit.Limiter.CheckWindows` | app/core/rate_limit.py:788-813 | The two loops over the windows, with a clock reading of its own for each, change the buckets as `CheckedWindows` does and admit when it does. |
| `RateLimit.EvictOne` | app/core/rate_limit.py:139-140 | Popping one actor takes the bucket from its n most recently touched actors to its n - 1 most recent, logs included. |
| `RateLimitHistory.BucketIsValid` | app/core/rate_limit.py:103-146 | Over every run the bucket never holds more actors than its ceiling, each once. |
| `RateLimitHistory.KeptIffRecent` | app/core/rate_limit.py:129-140 | An actor is in the bucket if and only if it was touched and fewer than the ceiling of distinct other actors were touched since. |
| `RateLimitHistory.LogsAgree` | app/core/rate_limit.py:113-146 | For an actor that was never out-aged, the live part of its pruned log equals the live part of the full history. |
| `RateLimitHistory.DecidesAsIdeal` | app/core/rate_limit.py:113-146 | For such an actor, the bounded limiter admits exactly when an ideal limiter that forgets nothing does. |
| `RateLimitHistory.AdmittedIsIdeal` | app/core/rate_limit.py:113-146 | So over a whole run it admits exactly the same hits. |
| `RateLimitHistory.IdealWithinBudget` | app/core/rate_limit.py:113-146 | The ideal limiter admits at most `limit` hits in any half-open window. |
| `RateLimitHistory.AtMostLimitInAnyWindow` | app/core/rate_limit.py:113-146 | Hence at most `limit` hits of an actor that was never out-aged, in any half-open window of the window's length. |
| `RateLimitHistory.WithinOneMore` | app/core/rate_limit.py:113-146 | What is counted in an interval: one more for each hit after its start and no later than its end. |
| `RateLimitHistory.OutAgedActorGetsCleanBudget` | app/core/rate_limit.py:96-103 | For every ceiling, a run in which an out-aged actor is let through where full memory would refuse: the condition is needed. |
| `WindowBudgets.AllOrNothingIff` | app/core/rate_limit.py:788-813 | Over any clock readings, a call is recorded in every window or in none if and only if the first window found full, when there is one, is still full at the next reading, the one `_check` takes itself. |
| `WindowBudgets.AgingBetweenReadingsBreaksIt` | app/core/rate_limit.py:797-813 | Two readings between which a hit ages out: the call is refused, and recorded. |
| `WindowBudgets.CallEffect` | app/core/rate_limit.py:788-813 | At one instant a call is refused exactly when some window is full; it is then checked in the first full one alone, and otherwise once in every window. Evictions included. |
| `WindowBudgets.WindowFollowsItsChecks` | app/core/rate_limit.py:788-813 | Over any run the bucket of each window is the one its own checks make, as if it were the only one. |
| `WindowBudgets.EveryWindowAdmitsTheSame` | app/core/rate_limit.py:788-813 | Every window let through the same calls: those that all windows let through. |
| `WindowBudgets.EveryLogCutsTheSharedHistory` | app/core/rate_limit.py:788-813 | The log of an actor never pushed out of a window's bucket while a hit of its own could count is, in every window, the one history of its admitted calls, cut to the window's length; with any number of actors. |
| `WindowBudgets.DecidesOnTheSharedHistory` | app/core/rate_limit.py:788-813 | A call of such an actor is let through exactly when its shared history has room in every window. |
| `WindowBudgets.AdmittedIsShared` | app/core/rate_limit.py:788-813 | What was let through of such an actor is that shared history. |
| `WindowBudgets.AllBudgetsHold` | app/core/rate_limit.py:788-813 | The budget of every window in which the actor was never out-aged holds over what the buckets let through together, in every half-open interval. |
| `WindowBudgets.FewActorsAreNeverForgotten` | app/core/rate_limit.py:96-103 | In a run of no more actors than a bucket holds, nobody is pushed out. |
| `WindowBudgets.ConfiguredWindowsAreDistinct` | app/core/rate_limit.py:750-771 | The windows the module configures keep separate logs. |
| `ThrottleAlert.AlertClaims.Claim` | app/core/rate_limit.py:975-991 | Claims the key unless it is claimed within the cooldown, and leaves every other claim. |
| `ThrottleAlert.AlertClaims.Release` | app/core/rate_limit.py:977-980 | Gives up the claim only when it is still this task's own. |
| `ThrottleAlert.StepKeepsInv` | app/core/rate_limit.py:947-1049 | Every step of any task at any interleaving (claim, delivery, failure, cancellation) keeps: the claims of two tasks of one key, sending or landed, are a cooldown apart, and each is still in place until a cooldown has gone by. |
| `ThrottleAlert.RunKeepsInv` | app/core/rate_limit.py:947-1049 | So does every run. |
| `ThrottleAlert.ClaimsAreApart` | app/core/rate_limit.py:982-991 | Of two claims of a key less than a cooldown apart, the first one's send failed before the second. |
| `ThrottleAlert.RefusalSendsIff` | app/core/rate_limit.py:982-991 | Over any run, a refusal sends an alert if and only if every claim of its key within the last cooldown has failed; otherwise it changes nothing. |
| `ThrottleAlert.AlertsAreACooldownApart` | app/core/rate_limit.py:974-991 | Two alerts of a key that landed, or were logged, claimed at least the cooldown apart: over the steps of any run, however long sends take. |
| `ThrottleAlert.FailureReleasesOnlyItsOwnClaim` | app/core/rate_limit.py:977-980 | A failed or cancelled send never takes away another task's claim. |
| `ThrottleAlert.AtMostOneSendInFlight` | app/core/rate_limit.py:1017-1034 | With sends bounded by their timeout, a key has at most one send in flight. |
| `ThrottleAlert.NextRefusalAfterAFailureSends` | app/core/rate_limit.py:970-980 | After a failed send the next refusal of that key sends again. |
| `ThrottleAlert.QuietDuringTheCooldown` | app/core/rate_limit.py:983-986 | After an alert that landed or was logged, every refusal of its key within the cooldown of its claim leaves everything as it is. |
| `ThrottleAlert.UnboundedSendsOverlap` | app/core/rate_limit.py:1017-1034 | Without the timeout two sends of a key can be in flight: a concrete run. |
| `ExportBudget.Session.BeforeFlush` | app/models/audit.py:52-108 | The hook leaves pending what it found with each audit row exchanged for an engineer row, and nothing else changed, when audit rows are suppressed; otherwise nothing. |
| `ExportBudget.RerouteConservesRows` | app/models/audit.py:82-108 | Rerouting conserves rows: the engineer log gets exactly the rows meant for either log, the audit log none. |
| `ExportBudget.RerouteKeepsTheRest` | app/models/audit.py:82-108 | Objects that are no audit rows stay as they are, in their place. |
| `ExportBudget.GlobalTrip` | app/core/rate_limit.py:908-932 | Returns the first window whose count is at its limit, or none; none when the count failed. |
| `ExportBudget.CountGrows` | app/core/rate_limit.py:858-905 | The count goes up by one with each of the user's own rows in the table of the user's role, in time, with a counted action and, where entity types are given, a counted entity type; and with no other row. |
| `ExportBudget.AdmittedIff` | app/core/rate_limit.py:908-932 | An export is let through if and only if its count fails or is under every window's limit. |
| `ExportBudget.OtherRowsDoNotMatter` | app/core/rate_limit.py:886-895 | A row of another user, table, action or entity type changes no admission, at any instant. |
| `ExportBudget.CompletedExportsCount` | app/core/rate_limit.py:858-905 | A completed export counts once, for its own user, from its stamp on; an aborted one never. |
| `ExportBudget.BudgetsAreApart` | app/core/rate_limit.py:820-855 | No row spends both the export and the contact-list budget, and a view of anything but a contact list spends neither. |
| `ExportBudget.StepKeepsInv` | app/core/rate_limit.py:1092-1111 | Every step of any instance keeps what each admission guaranteed: fewer than `limit` counted rows then, and every earlier export of that user either counted then or in flight then; rows are stamped with the start of their transaction, which is before the count. |
| `ExportBudget.RunKeepsInv` | app/core/rate_limit.py:1092-1111 | So does every run of any number of instances. |
| `ExportBudget.CountFromLastAdmitted` | app/core/rate_limit.py:858-905 | All of a user's exports of an interval but the last admitted are among those its count saw or those in flight beside it, when it read its clock within the window's length of the interval's start. |
| `ExportBudget.LastHonest` | app/core/rate_limit.py:858-905 | Of exports not all let through by failed counts, one was admitted on a count and after all the others so admitted. |
| `ExportBudget.AtMostLimitIfReadInTime` | app/core/rate_limit.py:858-932 | Any interval, of any length, holds at most limit + k - 1 completed exports of a user with at most k in flight, plus one for each let through by a failed count, if the last admitted of them read its clock no later than the interval's start plus the window; engineers included, through the rerouted table. |
| `ExportBudget.AtMostLimitPlusConcurrency` | app/core/rate_limit.py:858-932 | When counts read their clock at most `delay` after the transaction began, every interval with length + delay at most the window holds at most that many. |
| `ExportBudget.SequentialExportsStayWithinTheLimit` | app/core/rate_limit.py:858-932 | One at a time and with no failed count: at most `limit` in such an interval. |
| `ExportBudget.BudgetHoldsIff` | app/core/rate_limit.py:858-932 | Over all runs with counts at most `delay` after their transactions' start, every interval of a length holds at most limit + k - 1 and the failed counts if and only if length + delay is at most the window. |
| `ExportBudget.OneOverTheLimitInAFullWindow` | app/models/audit.py:46-48 | For every limit and any positive delay, a run of exports one after another, with ordered clock readings and no failed count, that puts limit + 1 in an interval of the window's full length. |
| `ExportBudget.LongerIntervalsHoldMore` | app/core/rate_limit.py:885-893 | With k at once, limit + k in any interval longer than the window less the delay. |
| `ExportBudget.BoundIsReached` | app/core/rate_limit.py:858-932 | Where the bound holds it cannot be improved: for every limit and k some run completes limit + k - 1 exports at one instant, with no delay. |
| `RouteScan.Walker.Walk` | scripts/security_scan.py:196-217 | On any finite route graph, cyclic or shared, the walk ends, sees what it had seen and what is reachable from its roots without passing it, and yields each newly seen real route exactly once. |
| `RouteScan.SeenIffReachable` | scripts/security_scan.py:196-217 | From an empty `seen`, a route is seen if and only if a path leads there, through an included router to its routes and otherwise to nested ones. |
| `RouteScan.IncludedRoutesAreReached` | scripts/security_scan.py:208-217 | Every route of an included router that is reached is reached, and every nested route of any other route that is. |
| `RouteScan.AllNamesAreMentioned` | scripts/security_scan.py:177-193 | A name is in the set if and only if it is called, or guards what is called, somewhere in the tree. |
| `RouteScan.DependencyNames` | scripts/security_scan.py:177-193 | The worklist returns exactly the names anywhere in the dependency forest. |
| `RouteScan.RoutesAreReachable` | scripts/security_scan.py:196-233 | The yielded routes are exactly the reachable real ones, each once. |
| `RouteScan.LiveRoutes` | scripts/security_scan.py:220-233 | Lists exactly the verbs, paths and dependency names of the reachable real routes. |
| `RouteScan.CheckUnauthenticated` | scripts/security_scan.py:236-297 | Critical findings for exactly the open routes on neither list, stale ones for exactly the listed pairs that are not open, and no others. |
| `RouteScan.CheckApp` | scripts/security_scan.py:220-297 | From the graph to the findings: critical for exactly the verbs other than HEAD and OPTIONS of reachable real routes whose dependency tree nowhere mentions a resolver and whose path is not open by design, unless reviewed; stale for exactly the reviewed pairs that are no such route. |
| `FailureWindow.Monitor.NoteFailureWindow` | app/core/failure_monitor.py:137-148 | Advances the window and gives the process's opinion, as `Noted` and `IsSustained` define them. |
| `FailureWindow.Monitor.ObserveFailure` | app/core/failure_monitor.py:151-160 | Reports only outside the interval, and stamps the report before awaiting it. |
| `FailureWindow.Monitor.ObserveSuccess` | app/core/failure_monitor.py:170-175 | Probes only outside the probe interval. |
| `FailureWindow.ReportsAreSpaced` | app/core/failure_monitor.py:156-160 | Any two reports of a process are at least 15 s apart, however many are still awaiting. |
| `FailureWindow.EveryFailureIsCovered` | app/core/failure_monitor.py:151-160 | Every failure is reported, or came less than 15 s after one that was, or before the clock reached 15 s. |
| `FailureWindow.ProbesAreSpaced` | app/core/failure_monitor.py:170-175 | Any two probes of a process are at least 60 s apart. |
| `FailureWindow.FirstProbeWaits` | app/core/failure_monitor.py:77-80 | No process probes in its first 5 seconds. |
| `FailureWindow.EverySuccessIsCovered` | app/core/failure_monitor.py:77-80 | Every success is a probe, or came less than 60 s after one, or in the first 5 s of the process. |
| `FailureWindow.GateKeepsTheRun` | app/core/failure_monitor.py:137-148 | The counters the module keeps are those of the longest run of failures, ending now, with gaps of at most 180 s; its start is dated zero for a first run begun within 180 s of the clock's zero. |
| `FailureWindow.SustainedIff` | app/core/failure_monitor.py:137-148 | The opinion agrees with the definition (enough failures and span in that run) if and only if it is not the case that the run was dated from zero and has a third failure at 60 s on the clock or later but less than 60 s after its first. |
| `FailureWindow.EarlyFailuresAreCalledSustained` | app/core/failure_monitor.py:86-92 | Failures at 30, 40 and 70 seconds on the clock are called sustained 40 seconds after the first. |
| `FailureWindow.SustainedAfterStartUp` | app/core/failure_monitor.py:86-92 | When the first failure came later than 180 s on the clock, it always agrees. |
| `EmailReach.SqlDecides` | app/core/email_reach.py:148-173 | The SQL predicate is never NULL, and says of a value that its part before the first '@' is not blank, its domain has a dot and is not reserved, trimming spaces only. |
| `EmailReach.SendableIsCounted` | app/core/email_reach.py:70-90 | Whatever the send loop would mail, the SQL predicate counts, for every string. |
| `EmailReach.TwinsAgreeIff` | app/core/email_reach.py:70-173 | The SQL predicate equals the Python gate if and only if the value is not one whose local part is whitespace with a non-space in it, or whose reserved domain has such whitespace at an end. |
| `EmailReach.TwinsAgreeOnSpaces` | app/core/email_reach.py:153-173 | Where spaces are the only whitespace, the twins are equal. |
| `EmailReach.ATabIsCountedAndNeverMailed` | app/core/email_reach.py:148-150 | A value with a tab for a local part is counted and never mailed. |
| `EmailReach.ResolvedIsReachable` | app/core/email_reach.py:93-114 | An address that resolves is one of the person's own, sendable, the personal one whenever that is; and the person counts as reachable. |
| `EmailReach.ReachableIffResolved` | app/core/email_reach.py:191-198 | Where spaces are the only whitespace, reachable holds if and only if an address resolves. |
| `EmailReach.ReachableHasAValue` | app/core/email_reach.py:176-198 | Reachable implies has-a-value, and neither is ever NULL. |
| `EmailReach.UnreachableIsAtLeastMissing` | app/core/email_reach.py:29-33 | Over any table, the unreachable are at least as many as the missing. |
| `EmailReach.CountsGrow` | app/core/email_reach.py:176-198 | Each row adds one to the unreachable unless the predicate holds of it, and one to the missing unless one of its addresses is not spaces alone. |
| `EmailReach.TruthTables` | app/core/email_reach.py:148-173 | The model's AND and OR are SQL's, unknown operands included. |
| `SearchTerms.SegmentWords` | app/core/search_terms.py:359-381 | The loop with its role and its current list computes one segment for each non-empty stretch between prepositions. |
| `SearchTerms.Truncate` | app/core/search_terms.py:384-396 | The budget loop keeps the first four segments and eight tokens, cutting the segment the budget ends in. |
| `SearchTerms.Parse` | app/core/search_terms.py:399-446 | The parse through those loops is `ParseFreeText`, fallbacks included. |
| `SearchTerms.WordsOfOver` | app/core/search_terms.py:348-356 | A separator parts the words: the words of a text around one are the words of its two sides. |
| `SearchTerms.WordsByCharacters` | app/core/search_terms.py:348-356 | Whitespace and the marks , ; / | part words, an '@' is the word 'at', and of every other character a letter stays in lower case, a digit as it is, and the rest is dropped. |
| `SearchTerms.OneWordOrNone` | app/core/search_terms.py:348-356 | A text with none of those is one word, or none when nothing of it stays. |
| `SearchTerms.FillerIs` | app/core/search_terms.py:115-151 | The filler words, one by one; none of them routes. |
| `SearchTerms.ParsesIffSearchable` | app/core/search_terms.py:399-446 | A query parses to something, and has some word, if and only if it holds a letter, a digit or an '@'. |
| `SearchTerms.SegmentedIsTagged` | app/core/search_terms.py:359-381 | Segmenting keeps every word that is no preposition, in order, each under the role of the last preposition before it, in non-empty segments whose phrase is their words joined. |
| `SearchTerms.EachWordHasItsRole` | app/core/search_terms.py:359-381 | A kept word has the employer role if and only if the last routing word before it is 'at', the place role if and only if it is 'in', 'from', 'near', 'around' or 'outside', and any role if and only if there is none; the kept words are all the others, in order. |
| `SearchTerms.PhraseOver` | app/core/search_terms.py:366-370 | A phrase is the words of its segment, one after another. |
| `SearchTerms.CapsKeepAPrefix` | app/core/search_terms.py:384-396 | The caps keep a prefix of the tokens, of exactly the length the caps allow. |
| `SearchTerms.ParseKeepsAPrefix` | app/core/search_terms.py:399-446 | With a word that is no preposition, the kept tokens are a prefix of the non-preposition words that are not filler, or of all of them when only filler and prepositions are left; each under the role of the last preposition before it, at most eight in at most four non-empty segments. |
| `SearchTerms.OnlyPrepositionsSearchBroadly` | app/core/search_terms.py:429-440 | Prepositions alone become one broad segment of the first eight words. |
| `SearchTerms.ParseOfContent` | app/core/search_terms.py:422-428 | With a word that is no preposition, the parse depends only on the words that are not filler, or on all of them in the fallback. |
| `SearchTerms.FillerChangesNothing` | app/core/search_terms.py:407-416 | Filler typed anywhere between two parts of a query that has content leaves the parse unchanged. |
| `FriendId.ParsesIffItFits` | app/core/friend_id.py:28-58 | A text names record n if and only if n is positive and the pattern matches the text with digits that spell n. |
| `FriendId.RoundTripIff` | app/core/friend_id.py:31-58 | A printed id parses back to its key if and only if 1 <= key < 10^12, over all integers. |
| `FriendId.PrintedIdsAreDistinct` | app/core/friend_id.py:12-20 | Different keys print differently, with no bound. |
| `FriendId.WordsOfPieces` | app/core/search_terms.py:348-356 | The search splits a typed friend id into one word, or into the word and the number when there is a space between them. |
| `FriendId.SearchLooksItUpIff` | app/repositories/alumni_search.py:398-406 | In free-text search an id that parses is looked up if and only if it holds no space inside; with one, it is not looked up at all. |
| `FriendId.DisplayedIdFindsTheFriend` | app/repositories/alumni_search.py:398-414 | Typing a displayed id parses to one token whose added leg matches exactly that friend and never an alumnus with the same key; the Net ID box resolves the same record. |
| `FriendId.OnlyAFriendIsNamed` | app/repositories/alumni_search.py:379-417 | An id adds the one record with that key that is marked as a friend, never an alumnus; the Net ID box shows just that record, and for any other text that is not blank whoever has it in the Net ID. |
| `FriendId.ASpacedIdIsNotLookedUp` | app/core/friend_id.py:43-50 | "Friend 42" names record 42 to the parser, and is not looked up by the search. |
| `Relevance.OutranksIff` | app/repositories/alumni_search.py:137-154 | A precise hit of a given tier, field and spelling outscores every approximate one, for all similarities and fields, if and only if it is not a hit inside history, not a synonym's hit inside current employment, and not a synonym's prefix hit in history. |
| `Relevance.TiersAre` | app/repositories/alumni_search.py:438-457 | The tiers: the cell is the term, begins with it, holds it somewhere, or does not hold it. |
| `Relevance.GuessesCount` | app/repositories/alumni_search.py:438-457 | A term not in the cell counts with its similarity and the field's weight, and not at all when it is shorter than four characters. |
| `Relevance.HitsAreOrdered` | app/repositories/alumni_search.py:147-154 | Of hits of one tier, the name counts more than current employment and that more than history; a synonym less than the term; and in one place the better tier more. |
| `Relevance.RowScoreIsTheBest` | app/repositories/alumni_search.py:420-524 | A row's score for a segment is at least that of every cell, term and spelling, and is one of them, or zero. |
| `Relevance.EverySegmentCounts` | app/repositories/alumni_search.py:527-543 | The score of a query is the sum over its segments of the row's score for each. |
| `Relevance.SeenIff` | app/repositories/alumni_search.py:162-218 | After 'at' only current and former employers are looked at, after a word for a place only place and industry cells, and otherwise every cell. |
| `Relevance.PreciseRowsComeFirst` | app/repositories/alumni_search.py:491-543 | For any similarity, a row with such a hit for every segment of a query, among the cells the segment's role may look at, has a higher summed score than every row with only approximate matches for all of them. |
| `Relevance.ANameGuessBeatsAFormerEmployer` | app/repositories/alumni_search.py:137-154 | Otherwise a guess can win: a similar enough name outscores a former employer that contains the term. |
| `AlumniOrder.EveryTokenIsATotalOrder` | app/repositories/alumni.py:305-376 | Every sort token, unknown ones included, gives a total order that tells any two rows apart, with any NULLs and any collation. |
| `AlumniOrder.PagesAreTheWholeList` | app/repositories/alumni.py:1249-1350 | On a fixed snapshot every run of the query returns the same list, and pages at offsets 0, L, 2L, ..., each from a run of its own, concatenate to every matching row exactly once, in order, as many as `total`. |
| `AlumniOrder.TiesBreakPaging` | app/repositories/alumni.py:319-329 | Under any order that ties two rows of a result, another run may swap them, and pages cut from the two runs show one twice and the other never. |
| `AlumniOrder.ListOrderMeans` | app/repositories/alumni.py:305-376 | For every token, known or not, and any two rows: one may precede the other if and only if the documented order says so, with NULLs last (first for the score), then by last name and key (by key alone for `updated`). |
| `AlumniOrder.ListIsSortedAsDocumented` | app/repositories/alumni.py:305-376 | So a list is sorted by the code's order if and only if it is sorted as documented. |
| `AlumniOrder.DisplayedMeans` | app/repositories/alumni.py:282-293 | What is displayed is the primary industry without the spaces around it, or the secondary one where the primary is 'other' in any case and the secondary is not blank. |
| `AlumniOrder.GradDescMeans` | app/repositories/alumni.py:297-304 | `grad_desc` lists the newest class first and unknown years last. |
| `AlumniOrder.IndustryMeans` | app/repositories/alumni.py:272-293 | `industry` follows the displayed industry, blanks and NULLs last. |
| `AlumniOrder.SearchMeans` | app/repositories/alumni.py:1268-1273 | A search without a sort lists better scores first, then last names. |
| `Semesters.DaysFromMarch` | app/core/semesters.py:90-107 | In every year, leap or not, terms start at fixed distances from 1 March. |
| `Semesters.TermsStartCleanly` | app/core/semesters.py:90-107 | At the midnight of each term's first day the clock of Denver passes that midnight at one instant and never shows an earlier time again. |
| `Semesters.SemestersTile` | app/core/semesters.py:90-107 | Each semester starts before it ends, and ends at the very instant the next one starts. |
| `Semesters.InSemesterIff` | app/core/semesters.py:90-142 | An instant's semester is s if and only if the instant is within the bounds of s, through both changes of clock. |
| `Semesters.SortKeyIsChronological` | app/core/semesters.py:85-88 | One sort key is less than another if and only if that semester is over when the other starts. |
| `Semesters.SemesterFollowsTime` | app/core/semesters.py:131-142 | A later instant is never in an earlier semester. |
| `Semesters.ParsesIffKey` | app/core/semesters.py:145-159 | A value parses as s if and only if it is the key of s and its year is from 2000 to 2100. |
| `Semesters.KeysByWords` | app/core/semesters.py:145-159 | The accepted values are Winter-, Spring-, Summer- and Fall- with a year from 2000 to 2100. |
| `Semesters.TermsByMonths` | app/core/semesters.py:46-51 | The terms are January to April, May and June, July and August, and September to December on the clock of Denver. |
| `Semesters.TickedFacts` | app/core/semesters.py:162-178 | More than twelve raw values are refused, as is any that is no key; otherwise the result is exactly the semesters whose keys were given, each once, newest first. |
| `Semesters.AnyOrderSortsTheSame` | app/core/semesters.py:177-178 | The order in which the set of parsed semesters is walked does not matter. |
| `Semesters.FilterIsWhatWasTicked` | app/services/opportunity_links.py:459-468 | From boxes to rows: the union of ranges admits an instant if and only if nothing was ticked or the key of its semester was. |
| `Semesters.EachSemesterIsOneRun` | app/services/opportunity_links.py:581-586 | In a list ordered by submission, newest first, every semester is one unbroken run of rows. |
| `OrphanListing.ListFolder` | scripts/survey_pending_orphans.py:178-205 | One folder, page by page with failures and any names: a prefix of its rows is noted, all of them when it finishes; when nothing fails it finishes exactly when its pages fit the cap. |
| `OrphanListing.StepDown` | scripts/survey_pending_orphans.py:175-195 | Replacing a pending folder by the sub-folders that were noted keeps found and pending together within the bucket, equal to it while the listing is complete, and leaves less to walk. |
| `OrphanListing.WalkListing` | scripts/survey_pending_orphans.py:151-206 | On any finite bucket and with any failures the walk ends and lists nothing but the objects it sees, under their stripped paths; a complete listing is all of those, and of a trimmed folder exactly every object under the prefix with its size; when nothing fails, it is complete if and only if every folder it comes to keeps within the cap. |
| `OrphanListing.ListsIffTrimmed` | scripts/survey_pending_orphans.py:187-198 | A complete listing is exactly the objects under the prefix with their sizes if and only if no name below it has whitespace at an end. |
| `OrphanListing.TrimmedFits` | scripts/survey_pending_orphans.py:178-205 | In a trimmed bucket the folders the walk comes to are all the folders, so the cap is the one on every folder's pages. |
| `OrphanDeletion.DiffReferences` | scripts/survey_pending_orphans.py:209-239 | The reconciliation of the listed paths with the trimmed paths of the rows, as `DiffOf`. |
| `OrphanDeletion.DiffTellsApart` | scripts/survey_pending_orphans.py:209-239 | An orphan is a listed path no row names, a dangling path is named and not listed; every listed or named path is in exactly one of the four lists, and their sizes add up. |
| `OrphanDeletion.BatchesAreTheItems` | scripts/survey_pending_orphans.py:242-245 | Batches joined are the items in order; none is empty, all but the last are full. |
| `OrphanDeletion.DeleteOrphans` | scripts/survey_pending_orphans.py:248-272 | Every orphan is asked for once, in order, whatever fails; the result says which worked and which did not. |
| `OrphanDeletion.DeletedPlusFailed` | scripts/survey_pending_orphans.py:248-272 | What was deleted and what failed are together the orphans. |
| `OrphanDeletion.RemovedIff` | scripts/survey_pending_orphans.py:248-272 | A path is among the removed if and only if it was asked for at some call and that call worked. |
| `OrphanDeletion.Run` | scripts/survey_pending_orphans.py:376-456 | Nothing is listed unless the settings and project checks pass and the rows loaded. Nothing is deleted in a dry run, after an incomplete listing, or with no rows and no permission to have none, and the last two do not exit with 0 when something was to go; whatever is deleted, a project was named and both addresses carry it. The exit code is 0 exactly when there was nothing wrong. |
| `OrphanDeletion.OnlyUnnamedAreDeleted` | scripts/survey_pending_orphans.py:376-456 | In any bucket, what may be deleted was listed and is named by no loaded row, each asked for once; of a trimmed folder it is exactly the objects under the prefix that no loaded row names. |
| `OrphanDeletion.ListedKeys` | scripts/survey_pending_orphans.py:175-198 | A complete listing is determined by the paths of the objects in the bucket: it has the paths these are seen under, and no other. |
| `OrphanDeletion.MisreadIff` | scripts/survey_pending_orphans.py:187-198 | An object is listed under another path than its own if and only if its directories are trimmed and its own name has whitespace at an end and is not blank. |
| `OrphanDeletion.SecondRunFindsNothingIff` | scripts/survey_pending_orphans.py:427-456 | When no delete failed, a second run finds no orphans in what the first left if and only if every object of the bucket that is listed under another path is listed under one that a row names; for any well-formed bucket. |
| `OrphanDeletion.SecondRunFindsNothing` | scripts/survey_pending_orphans.py:447-456 | When no delete failed, a second run finds no orphans in what the first left of a trimmed folder. |
| `OrphanDeletion.ASpacedPhotoStays` | app/services/supabase_storage.py:278-296 | One photo with a space before its name: two runs in a row delete the same path that no object has, report no failure and exit with 0, and the bucket is as it was. |
| `OrphanDeletion.ALateRowLosesItsPhotoIff` | scripts/survey_pending_orphans.py:410-422 | The rows are read before the listing, and no later row counts: a listed path is removed if and only if no row named it when the rows were read and its delete worked; in any bucket. |
| `OrphanDeletion.ALateRowLosesItsPhoto` | scripts/survey_pending_orphans.py:410-456 | One photo, one row of another when the rows are read, a row that names the photo afterwards: the run deletes the photo. |

## Left out

- Network, database, files and processes: they are abstract steps that may fail. HTTP retries, `pg_dump`, webhooks, Slack and e-mail delivery, and the text of log lines and reports are not modelled.
- RateLimit.Limiter.Check: the bucket of a window is a pair of name and seconds, not the string `<bucket>:<seconds>s`; logs are sequences, and the dictionary's in-place mutation of a hit list is an assignment of the new list.
- RateLimitHistory.DecidesAsIdeal: one clock per process that never goes back; a touch in the run is one call of `_check`.
- WindowBudgets.EveryLogCutsTheSharedHistory: one clock reading per call; two readings are covered by `AllOrNothingIff` alone. An actor that was pushed out is covered by `OutAgedActorGetsCleanBudget`.
- ThrottleAlert.StepKeepsInv: `_tripped_window` and the message of the alert are not modelled; they do not take part in the claim.
- ExportBudget.AtMostLimitPlusConcurrency: the count and the admission are one step, the clocks of the program and the database agree, one counted row per completed export is committed, and other writers add no counted rows.
- BackupHistory.EveryOkRunIsComplete: objects whose change markers say the same (the earlier one's cleaned once more) have the same content; a manifest is intact or unreadable, never altered; the bucket does not change during a run; a backup directory is used by one run at a time. Nothing is said of a run that found the bucket trimmed and reuses from one that did not.
- BackupHistory.CompleteWhereNamesFoldIff: a file system that refuses a name, or a file where a folder is, is a write that raises; a copy that fails and is downloaded again counts as the one write.
- Redaction.ShowsIff: the exact condition is for one secret after its own pass; of several secrets with brackets it is only proved that those that do not overlap the marker are hidden.
- BackupRun.Run.RunSteps: the database steps are reduced to what they hand on (a row count, two dumps, or a failure); the table-of-contents and session-table checks of the dumps are one such failure.
- BackupFolders.RunNameIff: digits are ASCII; the pattern accepts other Unicode digits too.
- BackupFolders.StampOrderIsTimeOrder: years before 1000 print with fewer digits and are not covered.
- BucketTree.WalkReturnsEverythingIffItFits: a page size of zero is not covered. That some object is missing from an untrimmed bucket takes every folder to hold something, as virtual folders do.
- RouteScan.CheckApp: route objects are a finite graph; how FastAPI builds it, and the other checks of the scan, are not modelled.
- EmailReach.TwinsAgreeIff: lower case is ASCII; no reserved domain depends on more.
- SearchTerms.ParsesIffSearchable: lower case and letters are ASCII; Unicode decomposition is not modelled. Synonyms (`expand`) are a parameter of `Relevance` only.
- FriendId.ParsesIffItFits: digits and case are ASCII; the pattern also accepts other Unicode digits and the dotless i.
- FriendId.DisplayedIdFindsTheFriend: the ordinary legs of the search predicate are an arbitrary predicate on segment and person.
- Relevance.PreciseRowsComeFirst: a cell that is NULL is not in the list of cells; the cap on scored terms is not modelled, since any list of terms is covered.
- AlumniOrder.PagesAreTheWholeList: the matching rows do not change between the pages.
- Semesters.InSemesterIff: the rules of daylight time are those in force from 1987 (and from 2007); for earlier years the model applies the 1987 rule, which was not in force. Naive datetimes are refused by the code and have no counterpart. Years past 9999 do not overflow.
- OrphanListing.WalkListing: the bucket is a finite tree that does not change during the walk, and the page size is at least one; without a finite tree the tool itself has no bound. Of the failure notes only the number is kept.
- OrphanDeletion.Run: what is printed is not modelled, nor is the warning for a project mismatch in a dry run.
- The spend guard, the intake template's column letters, `route_template`, the facets of `build_alumni_query`, and the floor on word similarity: self-contained and easier than what is here.
- The survey-send, login-block and incident state machines: their services are not part of this model.
- Pydantic validators, authentication, configuration and ORM models: constants and single checks.
