# Model of a to-do product's API, worker and web client

This project models the parts of the product where a wrong step is easy to miss, and
proves what they promise over every input, run or interleaving.

* **Search and paging.** `LikePattern` gives `LIKE` its full meaning and shows that the
  escaped term matches literally. `Base64Url`, `Timestamps`, `Digits` and `CursorCodec` are
  the opaque cursor, down to its bytes. `SearchCriteria`, `SearchStatement`, `SearchPaging`
  and `SearchWalk` build the criteria, assemble the statement, answer one page and follow
  the cursors; `SearchEra` is a walk that loses a row. `SearchMeaning` goes from the text
  typed to the tasks found, and `SearchRequests` and `RequestWalk` from the raw request to
  the pages a client walks.
* **Due dates.** `Gregorian` is the calendar, which `CalendarDays` counts day by day,
  `ZoneClock` a zone as a table of offset changes, `DueDate` and `DueDateText` the two-pass
  inversion of a wall clock.
* **Outbox.** `OutboxProtocol` is the table under any number of overlapping workers,
  `OutboxRuns` what every run keeps, `OutboxOverlap` what overlap can spoil, and
  `OutboxDrain` the worker's own loops, proved to be runs of the protocol.
* **Sync.** `SyncMachine` and `SyncTiming` are the two timers and their bounds,
  `SyncReports` what reports of a dead socket do to them, `SyncProvider` the component that
  updates them.
* **Tasks and lists.** `Schema`, `Store` and `StoreInvariants` are the tables, the
  operations and what every serial run keeps; `TaskOrder`, `TaskRuns`, `TaskCollisions`,
  `TaskPlaces`, `ListOrder` and `ActiveTasks` the orders; `Database` the services; `Purge` and
  `AccountExport` the worker's purge and the export.
* **Limits.** `SignIn`, `RateLimit` and `RealtimeBreaker` bound attempts over whole runs;
  `SignInHistory` tells every outcome and every session from the calls before it.

`Ordering`, `Numbers` and `Wrappers` are shared. A table is a map from id to row, a SQL
statement one atomic step, `ORDER BY` the one strictly increasing enumeration of a set.
The clock, the outcome of a send, a fetch or a password check, and the choice among equal
rows are nondeterministic or parameters.

Where a promise fails, the project proves an input or a run that breaks it and the
condition under which it holds:

* "A sent row stays sent" holds in exactly those states in which no worker has the row's
  last attempt in hand (`OutboxRuns.SentStaysExactlyWhen`). A slow overlapping worker breaks
  it (`OutboxOverlap.SentRowCanBeDeadLettered`), and so does a lone one whose `markSent`
  reaches the table but comes back as an error (`OutboxOverlap.LoneWorkerDeadLetters`).
* The polling bound in the comments of `sync-schedule.ts` holds if and only if the socket
  does not report that it is down before the pending poll fires: each report sets the poll
  anew (`SyncReports.DueUnlessReported`). What happens after the poll has fired does no harm
  (`SyncTiming.NextRefreshIsNear`). Reports starve a visible, disconnected tab for ever if
  and only if no gap between them is longer than the delay in force
  (`SyncReports.ErrorReportsStarvePolling`).
* The comment in `due-date.ts` that two passes converge for every real zone needs offset
  changes to be at least twice the largest offset apart, and nothing less will do
  (`DueDate.SpacingThreshold`); for one wall clock it is enough that the offset changes at
  most once around it (`DueDate.CalmIsFound`).
* The text of a due date reads back only if its year has four digits, for the year is not
  padded (`DueDateText.TextParses`).
* `Date.UTC` reads the years 0 to 99 as 1900 to 1999, so the calendar distance between two
  dates of the year 1 or later is right exactly when both or neither lie before the year
  100 (`DueDate.CalendarDaysAreExact`). Before the year 1 the years shown count back, and
  the distance has the wrong sign (`DueDate.BeforeYearOneRunsBackwards`).
* The cursor's timestamp names no era, so the next page starts at the row it names exactly
  when that row's sort key lies in the common era (`SearchPaging.CursorResumes`). A walk by
  due date over older dates can lose a row (`SearchEra.RowIsLost`).
* "Exactly one probe" holds for publishes one at a time. With up to `c` fetches in flight
  an outage costs `2 + c` of them and `c` more every 30 s
  (`RealtimeBreaker.FetchesBounded`), and can cost that many
  (`RealtimeBreaker.BoundIsReached`).
* "Active tasks have positions of their own" can fail in some run without another reorder
  if and only if two rows of the list, hidden ones included, share a position already
  (`TaskPlaces.CollisionsAhead`). While none do, exactly one kind of step changes that: an
  accepted reorder of n tasks while a hidden row holds a number below n
  (`TaskPlaces.StepKeepsApart`). `TaskCollisions.ReachableCollision` is a run in which it
  happens.

## Model

| member | source | states |
|---|---|---|
| LikePattern.EscapeLikeIsOnePass | apps/api/src/modules/search/search.criteria.ts:137-139 | the three chained replacements put one backslash before each metacharacter of the term and escape nothing they added |
| LikePattern.BackslashMustComeFirst | apps/api/src/modules/search/search.criteria.ts:126-139 | with the backslash replaced last, the term "%" would match anything again |
| LikePattern.SearchIsLiteral | apps/api/src/modules/search/search.repository.ts:81-87 | the pattern is never an error, and matches exactly the titles that contain the term as typed, case aside |
| Base64Url.DecodeEncode | apps/api/src/modules/search/search.criteria.ts:177-181 | unpadded base64url, read leniently, gives back the bytes written |
| Base64Url.UrlSafe | apps/api/src/modules/search/search.criteria.ts:177-181 | only the characters of the URL-safe alphabet are written, and no padding |
| Base64Url.TestVectors | apps/api/src/modules/search/search.criteria.ts:177-181 | the test vectors of RFC 4648 and one with the alphabet's own two characters |
| Timestamps.ParsePrint | apps/api/src/modules/search/search.repository.ts:118-130 | the printed sort key casts back to the same microsecond exactly when it lies in the common era, for four-digit years |
| Timestamps.PrintExample | apps/api/src/modules/search/search.repository.ts:118-130 | an instant whose fields all differ prints in the format, each field in its place |
| CursorCodec.DecodeAccepts | apps/api/src/modules/search/search.criteria.ts:186-211 | a cursor is accepted exactly when it decodes to a parseable timestamp, a bar and a uuid, split at the last bar |
| CursorCodec.DecodeEncode | apps/api/src/modules/search/search.criteria.ts:177-211 | decoding an encoded cursor returns it |
| CursorCodec.RowCursorRoundTrip | apps/api/src/modules/search/search.service.ts:45-54 | a row's cursor comes back, casts to the row's own id, and to its own sort key exactly in the common era |
| SearchCriteria.BuiltCriteriaAreRunnable | apps/api/src/modules/search/search.criteria.ts:77-108 | parsed and view criteria ask for 1 to 50 rows and sort by due date only with a predicate that gives every row one; a search names a criterion |
| SearchCriteria.TrimIsStretch | apps/api/src/modules/search/search.criteria.ts:111-124 | trimming gives a stretch of the text with no space at either end and only spaces around it |
| SearchRequests.RefusedForItsFault | apps/api/src/modules/search/search.criteria.ts:77-124 | a search or view is accepted exactly when its text, filters, view, page size and cursor are in order, and otherwise refused for the first that is not |
| SearchRequests.CursorGoesIn | apps/api/src/modules/search/views.service.ts:101-119 | the criteria of a later page are those of the first with the cursor decoded into them |
| SearchRequests.ServeIsRespond | apps/api/src/modules/search/search.service.ts:36-55 | parsing, assembling, running and cutting serves a request as the walk's request |
| RequestWalk.PagesAreOneSort | apps/api/src/modules/search/views.service.ts:51-119 | walking the pages of a raw request by its cursors yields exactly the tasks it asks for, each once: by due date and id in today, upcoming and overdue, newest first otherwise |
| RequestWalk.PageSizes | apps/api/src/modules/search/search.repository.ts:139-143 | every page with a next one holds 25 rows or the number asked for, and the last no more |
| RequestWalk.NextPageComes | apps/api/src/modules/search/search.service.ts:36-55 | an accepted request is served, and so is every next cursor |
| RequestWalk.PagesEnd | apps/api/src/modules/search/search.criteria.ts:183-211 | over an unchanging table a client is never sent round |
| SearchStatement.Add | apps/api/src/modules/search/search.repository.ts:73-91 | pushing a clause with its parameters narrows what the statement selects by that clause alone, and keeps every placeholder bound and every parameter mentioned |
| SearchStatement.AddDue | apps/api/src/modules/search/search.repository.ts:93-104 | the zone is bound only for the buckets that mention it, and the clause means the bucket |
| SearchStatement.AddCursor | apps/api/src/modules/search/search.repository.ts:112-122 | the row comparison keeps exactly the rows past the cursor in the sort's direction |
| SearchStatement.Assemble | apps/api/src/modules/search/search.repository.ts:68-137 | the statement selects exactly the owner's live tasks that meet every criterion given and lie past the cursor; no parameter is unused |
| SearchPaging.RemainingIsSelected | apps/api/src/modules/search/search.repository.ts:106-137 | with a cursor or without, the rows a page is cut from are those a statement with the assembled meaning selects |
| SearchPaging.Search | apps/api/src/modules/search/search.repository.ts:68-143 | the statement assembled for a request, run on any snapshot of the zone, returns the rows the page is cut from |
| SearchPaging.NothingWithoutAPlace | apps/api/src/modules/search/views.service.ts:101-119 | under criteria the parsers build, every matching task has a sort key |
| SearchPaging.CursorResumes | apps/api/src/modules/search/search.service.ts:45-54 | a next cursor sent back starts the next page just past the row it names if and only if that row's sort key lies in the common era |
| SearchEra.RowIsLost | apps/api/src/modules/search/search.repository.ts:112-130 | walking the overdue view of two tasks, due in 2 BC and in the year 1, returns the first and never the second |
| SearchPaging.PageFacts | apps/api/src/modules/search/search.repository.ts:124-143 | a page is in order, past its cursor, and leaves a row out only if it is full and the row comes later |
| SearchWalk.NoRowTwice | apps/api/src/modules/search/search.repository.ts:112-122 | whatever changes between pages, a task comes back twice only with a changed sort key |
| SearchWalk.ReturnedExactlyOnce | apps/api/src/modules/search/search.service.ts:36-55 | a task that matches at the same place at every request of a finished walk is returned exactly once |
| SearchWalk.WalkIsOneSort | apps/api/src/modules/search/search.service.ts:36-55 | over an unchanging table the pages are one sort of the whole result, for every limit and both orders |
| SearchWalk.WalkEnds | apps/api/src/modules/search/search.repository.ts:139-143 | no walk over an unchanging table has more pages than the result fills |
| SearchWalk.WalkGoesOn | apps/api/src/modules/search/views.service.ts:51-78 | after a page with a next cursor there is always another page |
| SearchMeaning.SearchFindsWhatWasAsked | apps/api/src/modules/search/search.criteria.ts:77-124 | an accepted search finds exactly the owner's live tasks whose title contains the text typed, spaces around it aside and whatever the case, and which meet the filters in the client's own terms |
| SearchMeaning.ViewsShowWhatTheClientSays | apps/api/src/modules/search/views.service.ts:81-119 | a view asked for by name holds exactly the active tasks the client puts zero days away, more than zero, past their instant, or anywhere |
| CalendarDays.ValidByLength | apps/web/src/lib/due-date.ts:79-88 | a date is valid exactly when its month, with the lengths and the leap rule written out, has that day |
| CalendarDays.DayNumbersCount | apps/web/src/lib/due-date.ts:79-88 | the day number of the next day is one more, and of the first of January 1970 it is 0 |
| CalendarDays.DatesCount | apps/web/src/lib/due-date.ts:17-46 | the date of the next day number is the next day |
| Gregorian.DateOrder | apps/web/src/lib/due-date.ts:79-88 | dates are ordered as their day numbers, and a day number determines its date |
| ZoneClock.OffsetInForce | apps/web/src/lib/due-date.ts:17-46 | the offset is that of the last change that has come, or the first one |
| Gregorian.DateOf | apps/web/src/lib/due-date.ts:17-46 | every day number has a valid date with that number |
| DueDate.FromWallClockIsTwoPass | apps/web/src/lib/due-date.ts:123-134 | measuring the offset by reading the zone's clock gives the true offset less its seconds, so the code computes the two passes over the offsets to the minute |
| DueDate.TwoPassInverts | apps/web/src/lib/due-date.ts:111-134 | where the offset changes at most once around a wall clock, the instant found reads as it exactly when it occurs, and is the only such instant when there is one |
| DueDate.TwoPassPicks | apps/web/src/lib/due-date.ts:111-134 | when a wall clock occurs twice, which of the two instants is found |
| DueDate.TwoPassInGap | apps/web/src/lib/due-date.ts:111-134 | when a wall clock is skipped, the instant found reads off by exactly the gap, and in which direction |
| DueDate.CloseChangesAreMissed | apps/web/src/lib/due-date.ts:116-122 | for every largest offset and every gap below twice it there is a zone with two changes that far apart and a wall clock that occurs and is not found |
| DueDate.CalmIsFound | apps/web/src/lib/due-date.ts:123-134 | the code finds every wall clock the zone's clock shows, whatever the zone's other changes and whether or not its offsets have seconds |
| DueDate.SpacingThreshold | apps/web/src/lib/due-date.ts:116-134 | the code finds every wall clock of every zone with offsets within m and changes at least d apart if and only if d is at least 2m |
| DueDateText.TextParses | apps/web/src/lib/due-date.ts:105-109 | the text shown parses, to the minute shown, exactly when its year has four digits |
| DueDateText.TextExample | apps/web/src/lib/due-date.ts:105-109 | a wall clock whose fields all differ is shown as its text, and the text names it |
| DueDateText.LocalValueRoundTrip | apps/web/src/lib/due-date.ts:105-134 | the text survives the round trip exactly when its year has four digits, and so does the minute when only one shows that text |
| DueDate.CalendarDaysAreExact | apps/web/src/lib/due-date.ts:79-88 | from the year 1 on the result is the difference of the calendar days shown, if and only if both or neither lie before the year 100 |
| DueDate.BeforeYearOneRunsBackwards | apps/web/src/lib/due-date.ts:79-88 | of two days in different years before the year 1, read alike, the later comes out as the earlier |
| DueDate.BucketsAgree | apps/api/src/modules/search/search.repository.ts:169-185 | the server's today and upcoming are the client's zero and positive calendar days |
| OutboxProtocol.StepKeeps | apps/worker/src/outbox/outbox.repository.ts:23-64 | every claim, send, mark, record, erasure and crash, in any interleaving, keeps the rows in step with their history and each job in one worker's hands, sent at most once |
| OutboxRuns.RowAccounts | apps/worker/src/outbox/outbox-drain.service.ts:30-70 | in every run attempts equal claims, sends are at most claims, a sent row had a send succeed, a failed row has its attempts used up |
| OutboxRuns.DeliveredWasSent | apps/worker/src/outbox/outbox-drain.service.ts:42-45 | a row counts as delivered only through a successful send of one of its jobs |
| OutboxRuns.NoRowLost | apps/worker/src/outbox/outbox.repository.ts:43-64 | a row goes exactly when its account is erased; attempts only grow, and a settled row is never pending again |
| OutboxRuns.SentStaysExactlyWhen | apps/worker/src/outbox/outbox.repository.ts:50-56 | a sent row stays sent in every continuation if and only if no worker holds a job of it with the attempts used up |
| OutboxRuns.PendingIsInHand | apps/worker/src/outbox/outbox-drain.service.ts:41-65 | however workers overlap, if none is cut short, a row pending with its attempts used up is in the hands of the worker on its last attempt |
| OutboxRuns.ClaimsFollowBackoff | apps/worker/src/outbox/outbox.repository.ts:17-41 | in every reachable state consecutive claims i and i+1 of a row are at least the smaller of base * 2^i and the cap apart, and it is next due at exactly its last claim plus that wait |
| OutboxRuns.ClaimableExactlyWhen | apps/worker/src/outbox/outbox.repository.ts:29-35 | an idle worker may claim a row exactly while it is pending and was never claimed or has waited that long |
| OutboxRuns.ClaimsAreSpaced | apps/worker/src/outbox/outbox.repository.ts:17-41 | any two claims of a row are at least the waits between them apart, and it is due again at most the cap after the last |
| OutboxRuns.UncappedDelays | apps/worker/src/outbox/outbox.repository.ts:25-28 | below the cap the first k delays sum to base * (2^k - 1) |
| OutboxOverlap.SentRowCanBeDeadLettered | apps/worker/src/outbox/outbox.repository.ts:50-56 | a run of two overlapping workers that dead-letters a delivered row |
| OutboxOverlap.LoneWorkerDeadLetters | apps/worker/src/outbox/outbox-drain.service.ts:42-52 | a run of one worker that does, `markSent` having written and failed |
| OutboxDrain.OutboxRepository.ClaimDue | apps/worker/src/outbox/outbox.repository.ts:23-41 | a claim takes distinct due rows up to the batch, all of them if fewer are due, counts one attempt each, schedules the next by the old count, and returns the new counts |
| OutboxDrain.OutboxRepository.MarkSent | apps/worker/src/outbox/outbox.repository.ts:43-48 | marks the row sent, and may fail with or without having written |
| OutboxDrain.OutboxRepository.MarkFailed | apps/worker/src/outbox/outbox.repository.ts:50-56 | dead-letters the row whatever its status |
| OutboxDrain.OutboxRepository.RecordRetry | apps/worker/src/outbox/outbox.repository.ts:58-64 | records the error and leaves the row for its next attempt |
| OutboxDrain.ProcessRow | apps/worker/src/outbox/outbox-drain.service.ts:41-65 | one row's turn is a run of the protocol, adds to the counter of what that run did, and does not leave the row pending with its attempts used up |
| OutboxDrain.DrainBatch | apps/worker/src/outbox/outbox-drain.service.ts:41-65 | a whole batch likewise |
| OutboxDrain.Drain | apps/worker/src/outbox/outbox-drain.service.ts:30-70 | from any table, a drain with no overlap is a run of the protocol; its three counters are what that run sent, retried and dead-lettered, every claimed row once; a row is left pending with its attempts used up only if it was so before and was not claimed; it stops with nothing due unless its cap stops it |
| SyncMachine.StepKeeps | apps/web/src/components/sync-provider.tsx:58-119 | at most one timer of each kind is pending and its ref holds it; a poll is pending exactly while mounted, visible and disconnected |
| SyncTiming.SignalIsFollowed | apps/web/src/components/sync-provider.tsx:56-64 | a signal is followed by a refresh within 250 ms unless the component unmounts |
| SyncTiming.NextRefreshIsNear | apps/web/src/lib/sync-schedule.ts:37-50 | mounted, visible and disconnected, the next refresh is at most 30,250 ms away, or 4,250 ms after recent activity, if the socket reports nothing before the pending poll fires, and whatever happens after |
| SyncTiming.ReturnCountsAsActivity | apps/web/src/components/sync-provider.tsx:96-114 | focus, a return online and a tab's return refresh at once and count as activity, so that the next poll is 4 s away; bare activity moves no timer |
| SyncReports.FirstRefresh | apps/web/src/components/sync-provider.tsx:77-98 | while a visible, disconnected tab waits, the next refresh comes exactly 250 ms after the poll fires, which is when it was due or as the last report has reset it |
| SyncReports.DeadlineMet | apps/web/src/components/sync-provider.tsx:77-98 | a deadline is met if and only if the poll so computed fires 250 ms before it |
| SyncReports.DueUnlessReported | apps/web/src/components/sync-provider.tsx:141-146 | the screen is refreshed within 250 ms of the time the pending poll was due if and only if no report comes before that poll fires |
| SyncReports.ReportCanHasten | apps/web/src/components/sync-provider.tsx:96-98 | after activity a report replaces a long poll by a short one |
| SyncReports.ErrorReportsStarvePolling | apps/web/src/components/sync-provider.tsx:141-146 | reports at given gaps keep the poll from firing, and the screen from being refreshed, if and only if no gap is longer than the delay in force |
| SyncTiming.SilentAfterUnmount | apps/web/src/components/sync-provider.tsx:196-211 | after unmount nothing is pending and nothing refreshes |
| SyncProvider.SyncProvider.ScheduleRefresh | apps/web/src/components/sync-provider.tsx:58-64 | as the machine's function; afterwards a refresh is due within 250 ms unless the component is gone |
| SyncProvider.SyncProvider.RefreshNow | apps/web/src/components/sync-provider.tsx:68-75 | as the machine's function; the screen is fresh and no refresh is pending |
| SyncProvider.SyncProvider.ScheduleNextPoll | apps/web/src/components/sync-provider.tsx:77-94 | as the machine's function; a poll is pending exactly while mounted, visible and disconnected, due after one of the two delays |
| SyncProvider.SyncProvider.OnVisibility | apps/web/src/components/sync-provider.tsx:100-108 | a tab that comes back is refreshed at once and polls exactly if disconnected, 4 s later; one hidden stops polling |
| SyncProvider.SyncProvider.OnFocusOrOnline | apps/web/src/components/sync-provider.tsx:110-114 | the screen is refreshed at once, no coalesced refresh is left pending, and the next poll, if disconnected, is 4 s away |
| SyncProvider.SyncProvider.OnConnectionChange | apps/web/src/components/sync-provider.tsx:141-146 | losing the socket starts the polling, gaining it ends it |
| SyncProvider.SyncProvider.OnTimer | apps/web/src/components/sync-provider.tsx:60-93 | a coalesced timer refreshes; a poll leaves a refresh due within 250 ms and the next poll pending |
| SyncProvider.SyncProvider.Cleanup | apps/web/src/components/sync-provider.tsx:196-211 | nothing is pending afterwards |
| StoreInvariants.StepKeepsSound | migrations/1721540000000_lists-management.js:38-59 | every operation keeps each task's list existing and of the same owner, one default list to an account, and list positions apart |
| Store.OrderChecksIff | apps/api/src/modules/tasks/tasks.service.ts:80-90 | the set check accepts exactly the orderings of the set |
| TaskOrder.ActiveViewIsSort | apps/api/src/modules/tasks/tasks.repository.ts:132-149 | splitting the one ordered read gives the active rows sorted by position, creation and id |
| TaskOrder.SectionsOfTheView | apps/api/src/modules/tasks/tasks.repository.ts:132-149 | the list view is the live active rows and then the live completed ones |
| TaskOrder.ActiveByPosition | apps/api/src/modules/tasks/tasks.repository.ts:132-149 | the active ones by position, creation and id |
| TaskOrder.LatestCompletedFirst | apps/api/src/modules/tasks/tasks.repository.ts:132-149 | the completed ones by completion, the latest first, and then by id |
| TaskOrder.CountIsViewLength | apps/api/src/modules/tasks/tasks.repository.ts:89-100 | in every reachable state the active count is the length of the active section |
| TaskOrder.ReorderExact | apps/api/src/modules/tasks/tasks.service.ts:68-95 | reorder accepts exactly the permutations of the active ids; accepted, they are the section at positions 0..n-1 and no other row moves; rejected, nothing changes |
| TaskOrder.ReorderTwice | apps/api/src/modules/tasks/tasks.repository.ts:342-358 | the same order again changes no more than `updatedAt` |
| TaskPlaces.StepKeepsApart | apps/api/src/modules/tasks/tasks.repository.ts:342-358 | while no two rows of a list, hidden or not, share a position, every operation keeps it so except exactly an accepted reorder with a hidden row at one of the numbers it hands out |
| TaskPlaces.CarefulRunsKeepApart | apps/api/src/modules/tasks/tasks.repository.ts:124-130 | in every run without such a reorder no two active tasks share a position |
| TaskPlaces.CollisionsAhead | apps/api/src/modules/tasks/tasks.repository.ts:124-130 | some run without a reorder of the list leads to two active tasks at one position if and only if two of its rows share one already |
| TaskCollisions.ReopenedCollides | apps/api/src/modules/tasks/tasks.repository.ts:124-130 | the one-step case: right after a reorder of n tasks, a hidden one that is reopened, restored or both shares a position with another active one exactly when its own is below n |
| TaskCollisions.ReachableCollision | apps/api/src/modules/tasks/tasks.repository.ts:124-130 | a run from the empty tables that ends with two active tasks at one position |
| TaskOrder.CreatedIsLast | apps/api/src/modules/tasks/tasks.repository.ts:360-398 | a new task is strictly last, and the rest of the section stays as it was |
| TaskRuns.RelativeOrderKept | apps/api/src/modules/tasks/tasks.repository.ts:117-149 | without a reorder two tasks keep their order every time both are shown active |
| TaskRuns.RestoreUndoesDelete | apps/api/src/modules/tasks/tasks.repository.ts:286-302 | restore undoes delete, for completed tasks too and but for `updatedAt`, exactly when the task was not deleted already |
| TaskRuns.ReopenUndoesComplete | apps/api/src/modules/tasks/tasks.repository.ts:244-260 | reopen undoes complete exactly when the task was not completed already |
| TaskRuns.RepeatKeepsInstant | apps/api/src/modules/tasks/tasks.repository.ts:221-302 | a repeated complete or delete keeps the first instant |
| TaskRuns.StampIsUninterrupted | apps/api/src/modules/tasks/tasks.repository.ts:286-302 | a deletion stamp goes back to a delete made at that instant, and has stood unbroken since |
| TaskRuns.PurgedOnlyAfterRetention | apps/worker/src/purge/purge.repository.ts:13-21 | in every interleaving purge removes only tasks deleted without interruption for longer than the window |
| TaskRuns.LeavesOnlyBy | apps/worker/src/purge/purge.repository.ts:13-21 | a task's row goes with its account, with its list, or expired by a purge, and in no other way |
| TaskRuns.AccountsComeAndGo | apps/api/src/modules/auth/lists.repository.ts:12-18 | registering makes one account with its one default list, and deleting an account takes all of its rows and nobody else's |
| TaskRuns.PurgeTakesOnly | apps/worker/src/purge/purge.repository.ts:28-52 | a batch reports how many rows went and touches no other |
| ListOrder.AccountAlwaysHas | apps/api/src/modules/auth/lists.repository.ts:12-18 | in every reachable state an account has exactly one default list and distinct list positions |
| ListOrder.ReorderExact | apps/api/src/modules/lists/lists.service.ts:91-116 | list reorder accepts exactly the permutations, leaves 0..n-1 in the submitted order, and changes nothing when it refuses |
| ListOrder.CreatedIsLast | apps/api/src/modules/lists/lists.repository.ts:102-120 | a new list is last and the others stay |
| ListOrder.DeleteExact | apps/api/src/modules/lists/lists.service.ts:70-84 | delete reports exactly the tasks the cascade removes, and never takes the default list or another account's |
| ActiveTasks.FindIndex | apps/web/src/components/active-tasks.tsx:122-122 | finds the first row with the id, or says there is none |
| ActiveTasks.DropOn | apps/web/src/components/active-tasks.tsx:121-140 | the dragged row goes directly before its target, the others keep their order, and nothing is submitted exactly when the order would not change |
| ActiveTasks.Move | apps/web/src/components/active-tasks.tsx:113-119 | two rows change places, and nothing is submitted past the ends |
| ActiveTasks.DropIsAccepted | apps/web/src/components/active-tasks.tsx:121-140 | an order built by a drop from the section shown is accepted by the server |
| ActiveTasks.MoveIsAccepted | apps/web/src/components/active-tasks.tsx:113-119 | and so is one built by a move |
| Database.Database.CreateTask | apps/api/src/modules/tasks/tasks.service.ts:117-143 | under an id nobody had, an active task with the title, due date and priority sent, placed after every row of the list and last in an otherwise unchanged active section; refused only without the list |
| Database.Database.UpdateTask | apps/api/src/modules/tasks/tasks.service.ts:183-217 | a field sent is stored, a due date sent as null is cleared, and what was not sent, every other field but `updatedAt` and every other row stay; nothing sent, and a task not the owner's or not live, are refused |
| Database.Database.SetCompletion | apps/api/src/modules/tasks/tasks.service.ts:295-306 | stamps the first completion or clears it, on an owned live task alone, which then is active exactly if reopened |
| Database.Database.SetDeletion | apps/api/src/modules/tasks/tasks.service.ts:282-293 | stamps the first deletion or clears it, on an owned task alone, deleted or not |
| Database.Database.ReorderTasks | apps/api/src/modules/tasks/tasks.service.ts:68-95 | done exactly for an order of the active ids of an owned list, and then the active section is that order |
| Database.Database.CreateList | apps/api/src/modules/lists/lists.service.ts:33-42 | under an id nobody had, a list of that name that is not the default, last in an otherwise unchanged list view |
| Database.Database.RenameList | apps/api/src/modules/lists/lists.service.ts:46-62 | stores the name on an owned list, the default one included, and changes nothing else |
| Database.Database.DeleteList | apps/api/src/modules/lists/lists.service.ts:70-84 | goes through exactly for an owned list that is not the default, reports the number of tasks gone and leaves none of the list's |
| Database.Database.ReorderLists | apps/api/src/modules/lists/lists.service.ts:91-116 | done exactly for an order of the account's lists, and then the list view is that order |
| Purge.PurgeRepository.PurgeExpired | apps/worker/src/purge/purge.repository.ts:46-52 | one batch takes the oldest expired rows, as many as the limit or all there are |
| Purge.PurgeRepository.Purge | apps/worker/src/purge/task-purge.service.ts:23-37 | a pass takes the expired rows, or the oldest ones the cap allows, and reports their number |
| Purge.PurgeIsExact | apps/worker/src/purge/task-purge.service.ts:23-37 | a pass takes exactly the expired rows if and only if the cap is no bar |
| Purge.PurgeMeans | apps/worker/src/purge/purge.repository.ts:13-21 | only rows deleted before the window began go, all of them if there are fewer than may, and none deleted later than one that stays |
| Purge.PurgeIsAStep | apps/worker/src/purge/purge.repository.ts:13-21 | a batch and a whole pass are purge steps of the store, so what its runs keep holds of them |
| AccountExport.Export | apps/api/src/modules/account-data/account-export.service.ts:36-65 | files every task row under its list in the order read, or names a row whose list was not read |
| AccountExport.NeverAnIntegrityError | apps/api/src/modules/account-data/account-export.service.ts:41-50 | in every reachable state every live task's list is among those read |
| AccountExport.ExportIsComplete | apps/api/src/modules/account-data/account-export.repository.ts:54-65 | each live task appears exactly once, under its own list, by position and then creation |
| SignIn.AuthService.SignIn | apps/api/src/modules/auth/auth.service.ts:122-196 | gate, comparison, counter, lock and session, as one step on the account |
| SignInHistory.OutcomeIsRight | apps/api/src/modules/auth/auth.service.ts:122-196 | every attempt of every run comes to what the calls and outcomes before it make right: an unknown address and a wrong password look alike, a locked-out account is refused uncompared, and only a right password on a verified account signs in |
| SignInHistory.SessionsAreEarned | apps/api/src/modules/auth/auth.service.ts:154-190 | each session was issued by an attempt with the right password, on an address verified after it was registered, and not locked out |
| SignInHistory.RightPasswordSignsIn | apps/api/src/modules/auth/auth.service.ts:141-190 | the right password on a verified account issues exactly one session, and none exactly while the account is locked out |
| SignIn.ComparisonsBounded | apps/api/src/modules/auth/auth.service.ts:141-176 | an attempt is refused exactly while the lock lasts, and passwords compared since the last correct one are at most the maximum and one for every lockout elapsed |
| SignIn.RetryAfterUnlocks | apps/api/src/modules/auth/auth.service.ts:141-152 | the wait a locked account is told is the least whole number of seconds after which the lock is over |
| SignIn.NoSessionWhileLocked | apps/api/src/modules/auth/auth.service.ts:141-190 | every session was issued by an attempt whose comparison began, if the maximum had been reached since the last correct password, no earlier than the last failure plus the lockout |
| RateLimit.RateLimitGuard.HitAndCount | apps/api/src/common/rate-limit/rate-limit.repository.ts:14-28 | adds a hit to the bucket and returns the new count |
| RateLimit.RateLimitGuard.CanActivate | apps/api/src/common/rate-limit/rate-limit.guard.ts:28-54 | counts the request in its window and admits or refuses it by the count |
| RateLimit.AlignedWindowBound | apps/api/src/common/rate-limit/rate-limit.guard.ts:36-40 | an aligned window admits as many as come, up to the maximum and no further |
| RateLimit.AnyWindowBound | apps/api/src/common/rate-limit/rate-limit.guard.ts:36-40 | any stretch of a window's length admits at most twice the maximum |
| RateLimit.RetryAfter | apps/api/src/common/rate-limit/rate-limit.guard.ts:40-51 | the wait is between a second and a window, and the least number of whole seconds after which the next window has begun |
| RealtimeBreaker.BreakerKept | apps/api/src/common/realtime/supabase-realtime.publisher.ts:47-123 | however publishes overlap, they are skipped exactly in the 30 s after a third or later failure in a row, and no fetch starts before the breaker allows one |
| RealtimeBreaker.SupabaseRealtimePublisher.PublishChanged | apps/api/src/common/realtime/supabase-realtime.publisher.ts:47-93 | a publish awaited before the next is a run with at most one fetch in flight, made exactly if the breaker is not open |
| RealtimeBreaker.FetchesBounded | apps/api/src/common/realtime/supabase-realtime.publisher.ts:95-123 | with at most c fetches in flight, those since the last success are at most 2 + c and c more for every 30 s: three and one for every 30 s when publishing one at a time |
| RealtimeBreaker.BoundIsReached | apps/api/src/common/realtime/supabase-realtime.publisher.ts:47-123 | for every c and every number of 30 s windows a run reaches that bound |

## Left out

- HTTP controllers, DTO validation, pages, rendering, rollback of the optimistic order, snackbars and environment configuration: input and output around the modelled code.
- Timestamps.ParsePrint: covers the years to which the printed format gives four digits, 9999 BC to 9999.
- SearchWalk.WalkIsOneSort: for tables whose sort keys lie in the years 1 to 9999, where a cursor names its row.
- CursorCodec.DecodeEncode: covers ASCII timestamp texts, which are all the statement prints; bytes outside ASCII decode to one replacement character each, and the engine's `Date` parser is a parameter.
- SearchPaging.CursorResumes: the database's casts accept only the printed timestamp form; a client's own cursor in another form it would take is answered with an error here.
- SearchMeaning.SearchFindsWhatWasAsked: for days from the year 100 on, as for the views.
- SearchMeaning.ViewsShowWhatTheClientSays: for days from the year 100 on, where `Date.UTC` reads years as they are, and with one clock for server and client.
- DueDateText.LocalValueRoundTrip: for calendar years from 0 on, offsets within a day of UTC, and an offset that changes at most once around the wall clock; a text outside the format of ECMA-262, section "Date Time String Format", is taken as invalid, which engines may read otherwise.
- DueDate.CalendarDaysAreExact: from the year 1 on; before that only the sign is stated, for days of different years (`DueDate.BeforeYearOneRunsBackwards`).
- DueDate.FromWallClockIsTwoPass: from the year 100 on, where `Date.UTC` reads years as they are.
- SyncReports.DueUnlessReported: for a wait in which a report cannot shorten the poll; `SyncReports.DeadlineMet` has no such proviso.
- OutboxDrain.Drain: no account is erased while the drain runs; the protocol's own runs allow it.
- The join with `lists` in the search statement: it drops no task, because every task's list exists (`StoreInvariants.StepKeepsSound`).
- Case folding is per character and keeps the three metacharacters; locale rules that change a text's length are not modelled.
- `formatDueDate`'s words, weekday and month names.
- OutboxDrain.OutboxRepository.ClaimDue: takes any due rows up to the batch; that the statement prefers the oldest is not modelled, since a locked older row may be skipped.
- SyncProvider.SyncProvider.OnTimer: a timer fires when its time comes; a browser that delays timers adds its delay to the bounds.
- The realtime token's refresh, the dynamic import and the socket: only the signals and connection reports they cause.
- Concurrent inserts computing the same next position, and overlapping sign-ins of one account: the properties are stated for serial runs, as the code provides no more.
- Title and list name rules, password hashing, token issue and audit records.
- The client address taken from the forwarding header: the address is an input of the limiter.
