# telemux: a verified model of node synchronisation

telemux keeps the user table of a telemt proxy node equal to a table of desired
users in PostgreSQL. It lists the node's users, computes the operations that lead
from there to the desired users, and sends them one by one to the node's machine
API, each with the revision the node must still have (`If-Match`). This project
models that reconciliation, the text formats and guards it rests on, the daemon
that triggers it, and the self-update of the binary, and proves what they promise.

`dafny verify dfyconfig.toml` checks everything.

## The parts

| file | models |
|---|---|
| `Calendar.dfy`, `Rfc3339.dfy` | dates of the proleptic Gregorian calendar; timestamps of section 5.6 of RFC 3339 as texts, fields and instants |
| `Users.dfy`, `Configs.dfy` | desired and reported users, operations, a node's table and what an operation does to it |
| `Diff.dfy`, `DiffTheory.dfy`, `DiffProgress.dfy`, `DiffMeaning.dfy` | `ComputeDiff` and the mass-delete guard; what the operations mean name by name; what is left after some of them were applied; the same in plain terms, field by field and with the defaults written out |
| `Wire.dfy` | request bodies, MergePatch of section 2 of RFC 7396, error classes |
| `Telemt.dfy` | one node: a class that other writers change between any two calls, with replies that may be lost |
| `Sync.dfy` | `SyncNode`: retry loop, guard, op loop, and the account its result gives of what happened |
| `OpLoop.dfy`, `SyncTheory.dfy`, `SyncMeaning.dfy` | theorems about the op loop, and about whole calls of `SyncNode`; when exactly a call stops, gives up or is aborted, in terms of status codes, words and numbers |
| `Store.dfy` | `ListDesired`, and what a converged node has in common with the users table |
| `Protocol.dfy` | the step relation of write handlers, manual syncs, the sync loop and other editors of the node, and theorems about all its histories |
| `RunChain.dfy` | many runs in a row on a node nobody else writes to: what has landed and what is left |
| `Daemon.dfy` | the daemon as a class: handlers, `markDirty`, `runSync` and the loop assign its fields, each step one of the protocol's, others stepping in between |
| `Checksums.dfy`, `SelfUpdate.dfy` | asset choice, `checksums.txt`, the binary swap and rollback on a disk that fails and crashes |

Code that changes state is a class or a method with loops, proved against a
specification function or predicate; the main results are lemmas about those.
`Sync.SyncNode` hands out, beside its result and error, its listings with their calls
(`run`) and how it ended (`end`), tied to the result by `Sync.Accounts`. The lemmas of
`SyncTheory` hold of everything `Accounts` admits, hence of every call, for every
interleaving of other writers, failed calls and lost replies.

## Assumptions about the environment

- **telemt** is not part of this repository. A revision is a collision-free digest
  of the whole table and never empty; a listing is taken atomically with its
  revision and reports every user once, in any order; `If-Match` is checked before
  anything else; the last user cannot be deleted (`last_user_forbidden`).
- **Errors.** A request may be refused without effect, with any error classed as
  neither conflict nor already done (read-only included), or be handled with its reply
  lost, which the caller sees as an error of no class. Conflict and already-done
  replies are only ever the node's true answers.
- **Error bodies** are any text around telemt's code, as long as a stale revision's and the
  last-user refusal's do not hold `user_exists` too, nor the latter `revision`.
  `Wire.ClassesOf` shows that to be exactly when each is classed as it is meant.
- **PostgreSQL** gives each run one snapshot of the users table, in any order; usernames
  are unique (`migrations/0001_init.sql:12`).
- **Fractions** of deleted users are exact; a threshold of 0 means one half.
- **The disk** renames atomically; any of its operations may fail.

## Where the code differs from what it says, or from what one may expect

- *Only prefixed users are managed* (`internal/telemtsync/diff.go:13`): the prefix only
  limits deletes. A desired user without it is created and patched like any other;
  `SyncTheory.Frame` states what really stays untouched.
- *No signal is lost* (`internal/server/server.go:65-72`) holds exactly without two
  faults: the loop's read of the desired users failing after it took the signal, and the
  store reporting an error for a write it has committed, after which the handler does
  not signal. `Protocol.UnreadAreLost` shows the unread versions at rest to be just those;
  `Protocol.FailedReadLosesWakeUp` and `Protocol.UnreportedCommitLosesWakeUp` are histories
  that lose one. The next tick repairs both.
- *A failed swap puts the binary back* (`internal/selfupdate/selfupdate.go:193-198`):
  not if that rename fails too, and, since the error of the backup rename is ignored, an
  older backup may take the binary's place. `SelfUpdate.FailedSwapKeepsBinary` gives the
  exact condition, `SelfUpdate.RollbackRestores` the one for a later rollback.
- *Not converged in N attempts* (`internal/sync/sync.go:119`): there are N + 1 attempts.
  With a negative number of retries there are none, and the call reports a conflict
  without having listed anything (`SyncTheory.Accounting`).
- *Create before delete, so as not to meet last_user_forbidden*
  (`internal/telemtsync/diff.go:14-15`): this works unless nothing is desired and the
  node has managed users only. `DiffProgress.DeleteOfLastUser` shows that to be the only
  case; the last delete then fails in every run (`SyncTheory.CalmRun`).
- *Already done* covers a 404 on a patch as well (`internal/telemt/mutate.go:34-40`). As
  the revision is checked first, no reply of that class ever arrives
  (`SyncTheory.NothingSkipped`).
- A printed expiration only parses back in the years 0 to 9999
  (`Rfc3339.UtcRoundTrip`); beyond, expirations are compared as texts.

## Model

| member | source | states |
|---|---|---|
| SyncTheory.Serialisable | internal/sync/sync.go:72-116 | a run without error, abort or failure finds and leaves its node, just before and just after every call, exactly at the last listing with the operations up to there applied, for every interleaving of other writers, undone changes included; so it ends with all of them applied, converged, and with every new user as desired, secret included |
| SyncTheory.ConflictBudget | internal/sync/sync.go:66-119 | with no more foreign writes and lost replies inside attempts than retries, the call never gives up on conflicts, and lists at most once more than there were such events |
| SyncTheory.ConflictIsCharged | internal/sync/sync.go:99-104 | an attempt conflicts only if between its listing and that call somebody else wrote or an applied call's reply was lost |
| SyncTheory.RetriesAreCharged | internal/sync/sync.go:114-118 | every attempt that was followed by another has such an event of its own |
| SyncTheory.CalmRun | internal/sync/sync.go:61-120 | a run nobody else writes into, with everything delivered, lists once and, unless aborted, applies every operation; on a node it would empty, all but the last delete, which telemt refuses |
| SyncTheory.RetriesShrink | internal/sync/sync.go:72-78 | with no foreign writes each retry has strictly fewer operations than the attempt before, and exactly those of them that have not landed, lost replies included |
| SyncTheory.QuietProgress | internal/sync/sync.go:72-78 | with no foreign writes every relisted user is as first listed or as it should be |
| SyncTheory.NeverAbortedAtRetry | internal/sync/sync.go:80-83 | with no foreign writes the guard stops a run at its first attempt or never |
| SyncTheory.AttemptDeletesWithinGuard | internal/sync/sync.go:77-113 | without force, the deletes sent by every attempt of a call are fewer than the minimum or at most the threshold's share of the managed users that attempt listed |
| SyncTheory.RunDeletesWithinGuard | internal/sync/sync.go:72-118 | with no foreign writes the same bound, against the first listing, holds for the users a whole run removes, retries and lost replies included; an aborted run removes none |
| SyncTheory.LeftBehind | internal/sync/sync.go:106-116 | after a finished run with no foreign write during its last attempt, the next diff is exactly the operations whose effect did not land, lost replies included, and no longer than the number of reported failures |
| SyncTheory.LeftAndLanded | internal/sync/sync.go:88-113 | without foreign writes the operations of an attempt that landed and those left add up to all of them |
| SyncTheory.NeverEmpties | internal/telemtsync/diff.go:14-15 | while no operation failed, a call the node's revision admits, delivered or not, would take away the last user if and only if it is the very last one of a run with nothing desired on a node with managed users only; otherwise telemt never refuses one for that |
| SyncTheory.Frame | internal/sync/sync.go:88-113 | no call of any attempt changes a user neither desired nor with the prefix, nor the secret of a user present before and after it |
| SyncTheory.NextRunIsEmpty | internal/sync/sync.go:72-116 | after a clean run, the next run that lists the node as it was left has no operations and sends nothing |
| SyncTheory.EmptyRun | internal/telemtsync/diff.go:142-143 | a run that first lists a converged node ends there without a call; it aborts only under negative guard options |
| SyncTheory.NothingSkipped | internal/sync/sync.go:94-96 | no call is ever answered "already done": 404 and user_exists cannot reach the op loop |
| SyncTheory.Accounting | internal/sync/sync.go:76-119 | applied, skipped and failed add up to the operations of a finished run and to less after a conflict, a lock-out or a failed relisting; errors are as many as failures; aborted and dry attempts send nothing |
| SyncTheory.ShadowSendsNothing | internal/sync/sync.go:84-86 | in shadow mode there is at most one attempt and it sends nothing |
| SyncTheory.AccountsChain | internal/sync/sync.go:71-118 | what SyncNode returns describes a chain of attempts each of which followed its own diff, all but the last ending in a conflict |
| SyncMeaning.VerdictOf | internal/sync/sync.go:92-112 | how a reply is taken, in status codes and words: 404 or 409 with user_exists is done, 403 with read_only locks out, 409 with revision is a conflict, any other error, a lost connection included, is one failure |
| SyncMeaning.StopsExactly | internal/sync/sync.go:89-113 | an attempt sends its operations in order up to the first read-only answer or conflict, and all of them if there is none: no other failure stops it |
| SyncMeaning.LockedOutExactly | internal/sync/sync.go:97-98 | a call ends locked out if and only if its last reply is 403 with read_only, and with that error |
| SyncMeaning.ResultCounts | internal/sync/sync.go:76-119 | whatever ended the call, its result holds the last listing's operations, the numbers of accepted and of ordinarily failed calls, and the errors of just the latter |
| SyncMeaning.AbortsExactly | internal/sync/sync.go:80-86 | a call is aborted if and only if its last listing shows too many deletes and it is not forced; in shadow mode it else ends there |
| SyncMeaning.SendsExactly | internal/sync/sync.go:77-91 | an attempt sends something if and only if it has something to do, is not held by the guard, and is not in shadow mode |
| SyncMeaning.GivesUpExactly | internal/sync/sync.go:66-119 | a call gives up if and only if one attempt more than the configured retries, or four by default, all ended in a conflict; never more are made, and all but the last always ended in one |
| SyncMeaning.BudgetIsExact | internal/sync/sync.go:71-119 | for all options as many foreign writes as attempts do make a call give up |
| SyncMeaning.EveryFate | internal/telemt/mutate.go:65-77 | the network may refuse any call with any error that is no false "done" or "conflict", and lose any reply |
| SyncMeaning.RunOutcome | internal/sync/sync.go:72-116 | after a run without error, abort or failure every user's record is given field by field from the last listing and the desired users, secrets and kept expiration texts included |
| SyncMeaning.WithinGuardIs | internal/telemtsync/diff.go:229-240 | the bound in the theorems about deletes is exactly the guard's measure |
| SyncTheory.DiffFits | internal/telemtsync/diff.go:158-182 | the operations of a listing are for distinct users and find them absent or present as they expect |
| OpLoop.NoFailureIsSerial | internal/sync/sync.go:88-113 | while no call failed, the node's tables before and after each call are exactly those of the operations applied one by one to the listing |
| OpLoop.RevisionIsBelief | internal/sync/sync.go:88-112 | the revision in hand is always the digest of the listed table with the acknowledged operations applied, also past failures |
| OpLoop.LastCallMeets | internal/sync/sync.go:89-112 | a call changes the table from exactly the believed one as its operation says, or not at all; success means the former, conflict that the table was another |
| OpLoop.NeverSkipped | internal/sync/sync.go:94-96 | for any fitting operations with distinct users the op loop never meets an already-done reply |
| OpLoop.UndisturbedBelief | internal/sync/sync.go:88-112 | without foreign writes and lost replies the believed table is the node's and no call conflicts |
| OpLoop.DisturbancesAre | internal/sync/sync.go:88-113 | the disturbances counted are the foreign writes and the applied calls whose reply was lost, and nothing else |
| OpLoop.QuietEnd | internal/sync/sync.go:88-113 | without foreign writes the node ends as the listing with the landed operations applied, acknowledged or not |
| OpLoop.AppliedHasLanded | internal/sync/sync.go:111-112 | at least as many operations changed the node as were counted applied |
| OpLoop.CalmLoop | internal/sync/sync.go:88-113 | an undisturbed loop with every call delivered applies all operations in order, but for a final delete of the last user |
| OpLoop.CountsAddUp | internal/sync/sync.go:94-112 | the three counters cover every call but a stopping one; one error is kept for each failure |
| Sync.SyncNode | internal/sync/sync.go:61-120 | its result and error are accounted for by the listings and calls it made: attempts, guard, mode, op loop and leftovers of the last conflict |
| Sync.Attempt | internal/sync/sync.go:73-116 | one attempt ends aborted, dry, finished, locked out or in a conflict, with the result each of these leaves; a failed listing leaves the last result |
| Sync.ApplyOps | internal/sync/sync.go:88-113 | the calls are the operations in order, each with the revision in hand, past every failure up to the first conflict or lock-out; the result counts their replies |
| Telemt.HandleRefines | internal/telemt/mutate.go:91-123 | telemt's answer to an encoded operation, in terms of the operation: conflict, user_exists or 404, last-user refusal, or exactly the operation's effect |
| Telemt.Node.Mutate | internal/telemt/mutate.go:42-79 | one call on a node others may have changed meanwhile: handled, refused without effect, or handled with the reply lost |
| Telemt.Node.ListUsers | internal/telemt/client.go:104-124 | a listing of every user once, in any order, with the revision of that very table, or an error |
| Telemt.Node.Interfere | internal/sync/sync.go:4-6 | other writers may leave any table, also the one they found |
| Telemt.Report | internal/telemt/client.go:110-123 | a list with every user of a table once and nothing of the secret |
| Telemt.ApplyOp | internal/telemt/mutate.go:91-123 | sends the request an operation is encoded as, with the revision to match |
| Wire.PatchBodyRefines | internal/telemt/mutate.go:103-115 | merging the patch body (RFC 7396) into any stored object is the typed patch on the record it holds, null removing and absence leaving alone; every other member stays |
| Wire.CreateBodyRefines | internal/telemt/mutate.go:81-101 | a create body with omitted fields yields the record the diff expects of that create |
| Wire.BuildRequest | internal/telemt/mutate.go:91-118 | the body filled field by field is the request specified for the operation |
| Wire.FieldOfMerge | internal/telemt/mutate.go:104-114 | member by member, a merge replaces what a patch names, removes what it nulls and keeps the rest |
| Wire.MergeMember | internal/telemt/mutate.go:104-114 | the same for members of any kind, objects merged in turn |
| Wire.CreateBodySays | internal/telemt/mutate.go:81-101 | a create body member by member: what has nothing to say is not in it |
| Wire.PatchBodyNames | internal/telemt/mutate.go:104-114 | a patch body has exactly the members to be set, null for none |
| Wire.ContainsIsSplit | internal/telemt/mutate.go:25-40 | a body contains a word if and only if it is something, the word, and something |
| Wire.ClassesOf | internal/telemt/mutate.go:23-40 | for every answer that carries a code, whatever the text around it: it is classed as meant (already done, conflict, or in no class, as for the last-user refusal) if and only if it does not hold the other codes' words |
| Wire.TellsOneThing | internal/telemt/mutate.go:23-40 | no such answer can be taken for that to another refusal |
| Diff.ComputeDiff | internal/telemtsync/diff.go:144-189 | the maps and lists filled in loops give creates, patches and deletes in listing order, concatenated |
| Diff.ComputeSafety | internal/telemtsync/diff.go:199-218 | the two counters and their exact fraction, 0 without managed users |
| Diff.IsMassDelete | internal/telemtsync/diff.go:229-240 | the guard's verdict with its two defaults |
| DiffTheory.DiffConverges | internal/telemtsync/diff.go:142-189 | applying the operations leaves every desired user present, enabled and equal, exactly the undesired managed names removed, and every name already right or not ours with its record |
| DiffTheory.ConvergedByName | internal/telemtsync/diff.go:142-143 | a node is converged if and only if each name by itself is settled |
| DiffTheory.DiffMember | internal/telemtsync/diff.go:156-182 | an operation is in the diff if and only if it is the one its user needs |
| DiffTheory.DiffDistinct | internal/telemtsync/diff.go:156-188 | each name occurs in at most one operation |
| DiffTheory.DiffFitsInOrder | internal/telemtsync/diff.go:184-188 | run in order, no create finds its user present and no patch or delete finds it absent |
| DiffTheory.StillFits | internal/telemtsync/diff.go:156-188 | an operation not yet applied still fits after any of the others |
| DiffTheory.SelectionByName | internal/telemtsync/diff.go:144-189 | after any selection of the operations, in any order, each name is untouched or at its goal |
| DiffTheory.OpNamesOfDiff | internal/telemtsync/diff.go:156-182 | the names with an operation are exactly those not settled |
| DiffTheory.EmptyDiffIsConverged | internal/telemtsync/diff.go:142-143 | the diff is empty if and only if the node is converged |
| DiffTheory.DiffIsMinimal | internal/telemtsync/diff.go:142-189 | no list of operations that leads to a converged node is shorter than the diff |
| DiffTheory.Goal | internal/telemtsync/diff.go:119-189 | the record a user should get is settled, is the present one exactly when that is settled, and keeps its secret |
| DiffMeaning.DiffOutcome | internal/telemtsync/diff.go:119-189 | what the operations leave of every user, field by field: created with the desired secret, expiration and limit; else kept with its secret and, if that is the same moment, its expiration text; enabled; removed only if undesired with the prefix |
| DiffMeaning.PatchSaysWhatDiffers | internal/telemtsync/diff.go:51-59 | a patch sets exactly the fields that differ, to what is desired |
| DiffMeaning.DeletesByPrefix | internal/telemtsync/diff.go:175-182 | a delete is for exactly the listed, undesired names with the configured prefix, or sub_ if none is |
| DiffMeaning.LastReportCounts | internal/telemtsync/diff.go:147-150 | of a name reported twice the last report counts |
| DiffMeaning.DiffIsOrdered | internal/telemtsync/diff.go:184-188 | creates before patches before deletes; creates and patches in the order of the desired users, deletes in that of the listing |
| DiffMeaning.GuardExactly | internal/telemtsync/diff.go:229-240 | for all options the guard stops a diff if and only if it deletes at least the minimum and more than the threshold's share of the managed users listed |
| DiffMeaning.DefaultGuard | internal/telemtsync/diff.go:221-240 | by default that is five users or more and more than half of the managed ones |
| DiffMeaning.InPlainTerms | internal/telemtsync/diff.go:175-212 | managed users are those on the node whose name begins with the prefix; the ones to go are those of them nobody desires |
| DiffProgress.ResumeAfterPrefix | internal/telemtsync/diff.go:144-189 | after the first k operations the recomputed diff is exactly the rest, up to order |
| DiffProgress.ResumeAnywhere | internal/telemtsync/diff.go:144-189 | after any part of the operations the recomputed creates and patches are those left, in order, and the deletes those left, in any order |
| DiffProgress.ProgressShrinksDiff | internal/telemtsync/diff.go:144-189 | every change towards the goal makes the recomputed diff strictly shorter |
| DiffProgress.GuardIsMonotone | internal/telemtsync/diff.go:229-240 | a diff the guard lets through stays let through while it is being applied, for all thresholds and minimums |
| DiffProgress.FractionShrinks | internal/telemtsync/diff.go:213-217 | taking deletes that were carried out from both counts never raises the fraction |
| DiffProgress.SafetyCounts | internal/telemtsync/diff.go:199-212 | the guard's counters are the numbers of managed users and of managed users not desired |
| DiffProgress.DeleteOfLastUser | internal/telemtsync/diff.go:14-15 | a delete run in order hits the last user if and only if nothing is desired, every user is managed, and it is the very last operation |
| DiffProgress.DesiredPresent | internal/telemtsync/diff.go:184-188 | once deletes begin every desired user is on the node |
| Users.PatchFieldsFor | internal/telemtsync/diff.go:119-140 | the changed fields, and changed exactly when the reported user does not match |
| Users.ExpirationEqualsIsMeaning | internal/telemtsync/diff.go:88-107 | expirations are equal if and only if they have the same meaning (never, an instant, or a raw text): an equivalence |
| Users.PrintedExpirationsEqual | internal/telemtsync/diff.go:88-107 | instants printed in any two legal offsets are equal expirations if and only if they fall in the same second |
| Rfc3339.ParseIsDenotation | internal/telemtsync/diff.go:101-106 | a text parses to an instant if and only if it is the text of a legal stamp that denotes it, one-digit hours, comma fractions and offsets up to 24:60 included |
| Rfc3339.OffsetShifts | internal/telemtsync/diff.go:101-106 | the same clock west of Greenwich is later by the offset and east of it earlier, with the same nanoseconds |
| Rfc3339.NanosOf | internal/telemtsync/diff.go:101-102 | a fraction of up to nine digits counts that part of a second, a longer one its first nine |
| Rfc3339.CommaAgrees | internal/telemtsync/diff.go:101-102 | a comma before the fraction means the same as a point |
| Rfc3339.ShortHourAgrees | internal/telemtsync/diff.go:101-102 | an hour of one digit means the same as with a leading zero |
| Rfc3339.RfcExample | internal/telemtsync/diff.go:101-102 | the first example of section 5.8 of RFC 3339, to the second and the hundredth |
| Rfc3339.LeapSecond | internal/telemtsync/diff.go:101-104 | the leap second among those examples is refused |
| Rfc3339.DecodeRender | internal/telemtsync/diff.go:101-102 | every legal stamp is read back from its text |
| Rfc3339.RenderDecode | internal/telemtsync/diff.go:101-102 | every accepted text is the text of the legal stamp read from it |
| Rfc3339.PrintedInAnyZone | internal/telemtsync/diff.go:88-90 | an instant printed in any legal offset parses back to itself cut to seconds, with day, month and year carried |
| Rfc3339.TextIsCanonical | internal/store/store.go:70-74 | an accepted text without fraction and with a full hour is what printing its instant in its own zone gives |
| Rfc3339.UtcRoundTrip | internal/store/store.go:70-74 | the printed text parses back to the instant cut to seconds exactly in the years 0 to 9999, and to nothing otherwise |
| Rfc3339.PrintsZulu | internal/store/store.go:72 | every printed text ends in Z, and has twenty characters in the years 0 to 9999 |
| Rfc3339.StampDenotes | internal/store/store.go:70-74 | the stamp of an instant in a zone denotes that instant cut to seconds |
| Calendar.DateOf | internal/store/store.go:72 | every day number, negative ones included, has a valid date with that number |
| Calendar.DayNumberInjective | internal/telemtsync/diff.go:101-106 | different valid dates have different day numbers |
| Calendar.YearLength | internal/telemtsync/diff.go:101-106 | years start 365 or 366 days apart, by the leap-year rule, as their months add up |
| Calendar.MonthLengths | internal/telemtsync/diff.go:101-106 | months have 31 and 30 days in turn, beginning again in August, and February 28 or 29 by the leap-year rule |
| Calendar.KnownDays | internal/telemtsync/diff.go:101-106 | the Unix epoch is day 719528, and a leap day is where it should be |
| Calendar.DateOfDayNumber | internal/store/store.go:72 | the date of a date's day number is that date |
| Store.ListDesired | internal/store/store.go:50-86 | one desired user for each row, in order, with its expiration printed; nothing if the query, a scan or the iteration fails |
| Store.SelectedAreDistinct | migrations/0001_init.sql:12 | since the table is keyed by username, the rows the query selects, in any order, give desired users with distinct names |
| Store.PrintedMatches | internal/store/store.go:70-74 | a node's expiration equals a printed one if and only if it is a timestamp of the same second, or the same text outside the years 0 to 9999 |
| Store.ConvergedIsMirroring | internal/store/store.go:49-86 | a node is converged to the rows selected, in any order, if and only if every enabled row's user is on it as the row says and every managed user is an enabled row's |
| Store.CreatedFromTable | internal/store/store.go:50-86 | a user of an enabled row that the node does not have is created as the row says, secret included |
| Store.MirroredExpiration | internal/store/store.go:70-74 | such a user has the row's limit, and no expiration, one in the row's second, or, outside the years 0 to 9999, the very text that is printed |
| Protocol.NodeMirrorsTable | internal/server/server.go:142-200 | end to end: at rest, with no version lost, a clean last status and no other write to the node since that run was done with it, the node mirrors the users table as it is now |
| Protocol.NoLostWakeUp | internal/server/server.go:65-72 | a version of the table newer than the last read is signalled, or its handler is about to signal, or the loop is about to read, or one of two faults lost it |
| Protocol.UnreadAreLost | internal/server/server.go:184-200 | at rest a version is unread if and only if its write was committed unreported or a loop read failed after it, with no read since |
| Protocol.UnreadIsMissed | internal/server/server.go:184-200 | by positions in the history alone: at rest some version is unread if and only if after the last read a commit was reported as an error, or a commit (or the start) is followed by a failed read of the loop |
| Protocol.FaultlessLosesNothing | internal/server/users.go:71-80 | without those faults no version is lost |
| Protocol.FailedReadLosesWakeUp | internal/server/server.go:196-197 | for any table and any options a history where the loop's read fails after taking the signal and a write stays unread at rest |
| Protocol.UnreportedCommitLosesWakeUp | internal/server/users.go:71-79 | for any table and any options a history where a write commits, is reported as an error, and stays unread at rest |
| Protocol.Invariant | internal/server/server.go:142-200 | in every history the run lock has exactly the runner in a run, the loop only rests after a run was published, and no version is read before it is committed |
| Protocol.RunsAreSerial | internal/server/server.go:140-144 | at most one run at a time, the lock holder's, and the published status belongs to the last finished one |
| Protocol.OthersKeepOut | internal/server/server.go:143-164 | no one else takes a step of a run while one holds the lock, changes what that run has read or come to, the place of one who waits, or a handler's signal |
| Protocol.ReadUpTo | internal/server/server.go:145 | the versions with a read after their commit are exactly those up to the last read |
| Protocol.Truth | internal/server/server.go:145-164 | without other writes since, a clean status means that the node mirrors the table as last read, before and after it is published |
| Protocol.CleanStatus | internal/server/server.go:145-146 | a status without error, abort or failure in apply mode means that every operation was applied and the node converged |
| Protocol.CalmIsClean | internal/server/server.go:145-160 | a run in apply mode that nobody else writes into, with every call delivered, that gets its listing and is not aborted publishes a clean status if and only if it need not delete the node's last user |
| Protocol.StatusReports | internal/server/server.go:145-160 | the status carries the run's mode and counters, counts each kind of operation and all of them together, has an error exactly when the run has one, and tells success truthfully |
| Protocol.KindsAreCounted | internal/server/server.go:147-156 | the count of a kind is the number of operations of that kind |
| Protocol.Debounced | internal/server/server.go:65-72 | the runs the signal started, and the pending one, are no more than the signals sent |
| RunChain.RunsConserve | internal/server/server.go:184-200 | over any number of runs for the same desired users with no foreign writes, whatever fails, conflicts or is lost: the changes the node saw and the operations of the next diff add up to those of the first diff; at least as many landed as were counted applied; the node is converged exactly when as many landed as that diff had |
| RunChain.LogConserves | internal/sync/sync.go:72-118 | the same for any sequence of attempts each listing what the one before left |
| RunChain.AttemptConserves | internal/sync/sync.go:73-113 | the same for one attempt and the listing after it |
| Daemon.Server.RunSync | internal/server/server.go:142-165 | whatever others do meanwhile: it reads the desired users or fails to, within the call; the stored status is that of this run and reports it truthfully; the lock is free again; a clean status means that the node object's table, unless others wrote to it since, is converged to what was read and mirrors the users table as read |
| Daemon.Server.MarkDirty | internal/server/server.go:67-72 | a send that gives up when the slot is full leaves the signal set, and is the protocol's step that announces the version |
| Daemon.Server.Take | internal/server/server.go:196-197 | receiving clears the slot and is the protocol's step |
| Daemon.Server.PublishStatus | internal/server/server.go:161-164 | storing the status and releasing the lock is the protocol's last step of a run |
| Daemon.Server.LoopTurn | internal/server/server.go:189-199 | the loop runs exactly when ticked or signalled, once the lock is free |
| Daemon.Server.Write | internal/server/users.go:71-80 | a handler commits the table it is given and then signals that very version, or, if the store reports an error, does not signal |
| Daemon.Server.RestsTruthfully | internal/server/server.go:142-200 | a daemon whose own fields say it is at rest with a clean status, no version lost and nobody else writing to the node since: the node object's table mirrors the users table as it is now |
| Daemon.CountKinds | internal/server/server.go:147-156 | each kind of operation is counted, and together they are all operations |
| Checksums.PickAsset | internal/selfupdate/selfupdate.go:43-50 | the first asset of that name, and none exactly when there is none |
| Checksums.ParseChecksums | internal/selfupdate/selfupdate.go:53-63 | the table of the scanned lines, the last record of a file counting |
| Checksums.FirstAndLast | internal/selfupdate/selfupdate.go:57-60 | a line records its first word for its last one, and nothing with fewer than two |
| Checksums.BlanksSeparate | internal/selfupdate/selfupdate.go:57 | printable words set apart by blanks and tabs are a line's words |
| Checksums.ScansUpTo | internal/selfupdate/selfupdate.go:55-56 | the scanner gives up for good on a line of 65536 bytes or more |
| Checksums.SizeOfChar | internal/selfupdate/selfupdate.go:55-56 | a character counts the one to four bytes UTF-8 takes |
| Checksums.LowerOfDigest | internal/selfupdate/selfupdate.go:59 | a digest reads the same in upper and in lower case |
| Checksums.LastEntryCounts | internal/selfupdate/selfupdate.go:59 | of two records for a file the last counts |
| Checksums.ChecksumsRoundTrip | internal/selfupdate/selfupdate.go:52-63 | a checksums file with any entries reads back as their table |
| Checksums.AsciiSuffices | internal/selfupdate/selfupdate.go:59 | a lower-casing of all Unicode letters makes the same texts equal to a hexadecimal digest as that of ASCII letters |
| SelfUpdate.FileSystem.SwapBinary | internal/selfupdate/selfupdate.go:175-201 | the disk goes through exactly the specified states and errors, whichever of its operations fail |
| SelfUpdate.FileSystem.Rollback | internal/selfupdate/selfupdate.go:204-210 | one rename that puts an existing backup in the binary's place, else an error and no change |
| SelfUpdate.FileSystem.Update | internal/selfupdate/selfupdate.go:128-172 | the swap is made exactly when the release differs from the current version, has both assets, and the binary's hash is the one checksums.txt records for it; otherwise nothing is touched; success is being up to date or a swap without error |
| SelfUpdate.InstallsExactly | internal/selfupdate/selfupdate.go:137-166 | what an update installs, in the files' own names: another release with the asset for the platform and checksums.txt, whose record of it is the hash of the binary |
| SelfUpdate.SwapKeeps | internal/selfupdate/selfupdate.go:175-201 | in every state of a swap, path and backup hold what was there before or the complete new binary, and at least one of them is there |
| SelfUpdate.UpdateIsSafe | internal/selfupdate/selfupdate.go:151-171 | every state an update passes through keeps that, with only verified binaries added |
| SelfUpdate.AlwaysSafe | internal/selfupdate/selfupdate.go:151-210 | after any sequence of updates and rollbacks with any failures and crashes, path and backup only hold complete binaries that were there at first or whose hash is the one checksums.txt recorded in some update, and at least one is there |
| SelfUpdate.RollbackRestores | internal/selfupdate/selfupdate.go:193-210 | a rollback after a successful swap restores the former binary if and only if it had been backed up (or an older backup is the same) and the rename works |
| SelfUpdate.SwapInstallsExactly | internal/selfupdate/selfupdate.go:175-201 | a swap installs the new binary, and says so, if and only if every step but the backup rename works |
| SelfUpdate.FailedSwapKeepsBinary | internal/selfupdate/selfupdate.go:193-199 | a failed swap keeps the binary except when the backup cannot be put back or an older one is put in its place |
| SelfUpdate.TemporariesLeft | internal/selfupdate/selfupdate.go:177-182 | over any history, temporary files are left by updates that crashed or could not remove theirs, one each at most |
| SelfUpdate.UpdateAfterAnything | internal/selfupdate/selfupdate.go:168-201 | whatever was interrupted before, the next verified update whose swap succeeds installs its binary |

## Left out

- Telemt.HandleRefines: telemt's answers are those classed as meant; a body that holds the words of two codes is not among them.
- SyncTheory.Frame: secrets are only shown to be unchanged by patches; a secret that differs from the desired one is invisible in a listing and not repaired.
- Protocol.UnreadAreLost: says that versions were read, not that the node took them; a run that read and then failed on the node leaves the rest to the next tick, and its status is not clean.
- Daemon.Server.LoopTurn: one turn of the endless loop; when the lock is not free it says so and ends, as a method cannot wait.
- Checksums.ParseChecksums: lower-casing is modelled for ASCII letters; `Checksums.AsciiSuffices` shows that no comparison with a hash is affected.
- Rounding of the delete fraction in floating point.
- HTTP transport, JSON syntax, contexts, time-outs, user names that need escaping in a path, and an operation of an unknown kind.
- A telemt that gives a user created without a secret one of its own.
- PostgreSQL, replication, role detection, sessions, cluster registry, heartbeats, join tokens, pagination.
- The dashboard, command line, installer and container files.
- Restarting the service and the health check after an update.
