# direct-link: a verified model

direct-link is a live production system. Camera clients capture, encode and publish
video over WHIP; directors watch the tracks and put one on the main feed; a Go
signaling server hands out room codes, tokens and LiveKit ingresses, and keeps its
sessions in Redis, where a janitor on every replica sweeps the ones whose time is up.

This project models the parts of it that carry state across calls and threads, and
proves what holds in every run of them.

**Session control plane** (`redis`, `keys`, `session_store`, `store_index`,
`redis_store`, `retry`, `janitor_lock`, `signaling`, `histories`, `sweep`, `lifetimes`,
`late_join`, `server`, `room_code`).
Redis is a key space with expiry times and a clock. The store's keys are named by a
datatype, and the flat strings Redis really holds are proved to behave the same for
ids without a colon. Each store method sends its commands one by one and is proved
equal to a function on the key space; the handlers call the store and LiveKit in the
source's order, with every call that can fail taking its outcome as a parameter, and
are proved equal to `Signaling.Handle`. The theorems are about all runs of `Handle`,
creates that are cut short and calls that fail included. `common`, `decimals` and
`arithmetic` hold what several modules need.

**Camera pipeline** (`frame_queue`, `camera_pipeline`, `leftovers`, `software_encoder`,
`keyframes`, `timestamps`, `published_stream`, `camera_session`). Capture thread, encode thread and
the caller of start and stop are steps of one transition system over any number of
cycles; the queue, the encoder and the publisher are classes whose methods keep their
histories in balance.

**Exact algorithms** (`director`, `plane_copy`, `room_code`). The rank of the selected
track, the strided plane copies, and the room code printer against the text field.

## What the code does that its documentation does not say

Each of these is a theorem below.

- The janitor, given the real time, finds a session exactly from the second of its score
  on (`DueExactlyFromItsSecond`). The score is computed before the commands reach Redis,
  so its window before the expiry is that lag plus what had passed of the second
  (`DueWindow`), and a run of sweeps can close a session exactly when the window is not
  empty (`TheJanitorCanCloseExactly`). A session that expires unclosed is left in the
  active set and its ingresses in LiveKit (`AbandonedExactlyWhenExpired`), in every later
  state (`ExpiredSessionsAreNeverCleanedUp`); one that is created, joined and left alone
  ends so (`EveryIdleSessionIsAbandoned`).
- A closed session whose removal from the active set failed stays listed
  (`ClosedButListed`). The comment in redis.go that the next sweep reconciles holds
  exactly when the record is still there and the second of the score has begun
  (`NextSweepReconcilesExactly`).
- A camera whose session is closed between its lookup and the rest of its join is
  admitted, and its ingress stays unless the creator closes again (`LateJoinExactly`,
  `RetiredIngressStays`).
- Two overlapping sweeps, if no call of theirs fails, leave what one of them alone would
  (`OverlappingSweepsAgree`).
- A create whose retries run out on the way leaves a session that is missing from some
  indexes: it agrees with all of them exactly when none or all of its commands took
  effect (`PartialCreateKeepsExactly`). No other session is harmed (`CutCreateKeeps`), and
  the history theorems hold over runs with such creates. Its record ends after a lifetime
  exactly unless it stopped after its first command (`RecordLivesExactly`); then it stays
  in Redis, open, for ever (`StuckForever`). If it stopped before its code was written,
  deleting it can take another session's code (`DeleteKeepsExactly`,
  `DeleteTakesAnothersCode`).
- Any failure of the lookup answers not found, a Redis outage included (`JoinAnswers`,
  `CloseAnswers`).
- If the hash expires between the EXISTS and the HSET of a status update, the write
  leaves a record without expiry that no read accepts (`StatusWriteAfterExpiry`).
- Giving a closed session another status leaves it outside the active set; a status
  update of a whole session keeps the indexes in agreement exactly when it closes the
  session or the session is still listed (`UpdateKeepsExactly`, `ReopeningLosesTheActiveEntry`).
- Both goroutines of a process share one lock value, so a late sweep can release its
  sibling's lock and two sweeps can overlap although neither is late, in one process
  alone (`SiblingReleasesTheLock`). Overlaps always contain a late sweep exactly when no
  two sweepers share a lock value (`OverlapsAreLateExactly`).
- `VideoPipeline::stop` notifies before it requests stop, so it can wait for ever
  (`StopCanHang`); `StopReturnsUnlessCaughtAsleep` says exactly when.
- The queue is not cleared between runs (`StopLeavesFrames`, `LeftoversAreServedFirst`),
  while the capture clock restarts with each of them. While every buffer has a timestamp,
  the next stream is published without wrapping exactly when the queue was empty at the
  stop (`NextStreamNeverWrapsExactly`). A buffer without one is stamped 0 and makes a
  stream wrap exactly when the stream's first timestamp is not 0
  (`GappyStreamNeverWrapsExactly`).
- Ticks survive the trip to nanoseconds and back at every frame rate up to one frame
  per nanosecond, and at no other (`TicksSurviveExactly`).
- Inside onTrackAdded and onTrackRemoved the selected track can be on two feeds for a
  moment (`BetweenTheTwoAssignments`, `BetweenTheTwoAssignmentsOnRemoval`,
  `SelectedTrackShownTwice`).
- Finding a room code free and storing it are two steps; two creates that race leave one
  session without its code (`RacingCreatesLoseACode`).
- The director's plane copy leaves the last chroma row and column of odd-sized pictures
  unwritten (`ReaderPlane`).
- The hardware encoder inherits the empty requestKeyframe
  (`ForcedExactlyWhenRequested`), and a frame the software codec refuses has used the
  request up (`EncodeFrame`).

## Model

| member | source | states |
|---|---|---|
| `Keys.RenderInjective` | backend/pkg/session/redis.go:16-23 | two of the store's concatenated keys with the same text are the same key, for ids without a colon |
| `Keys.CollisionExactly` | backend/pkg/session/redis.go:16-19 | without that rule two different keys have the same text if and only if one is the session hash of an id that is the other's id with its suffix, for any two keys of the store |
| `Keys.ExecAgrees` | backend/pkg/session/redis.go:93 | a command sent under a rendered key changes the flat space as it changes the structured one |
| `Keys.AdvanceAgrees` | backend/pkg/session/redis.go:112 | expiry acts alike on both spaces |
| `Keys.FlatSpaceIsFaithful` | backend/pkg/session/redis.go:16-23 | every history of commands and clock ticks keeps the flat string space and the structured space in agreement |
| `SessionStore.DecodeEncode` | backend/pkg/session/redis.go:96-103 | reading back a stored session hash gives the session, if and only if its two parsed texts are there |
| `SessionStore.CreateClosedForm` | backend/pkg/session/redis.go:107-132 | the create pipeline changes exactly the hash, the room code, the creator's set and the active set, each to the stated entry |
| `SessionStore.CutCreateClosedForm` | backend/pkg/session/redis.go:107-132 | its first n commands change each key exactly as the stage they reach says |
| `SessionStore.DeleteClosedForm` | backend/pkg/session/redis.go:272-285 | the delete pipeline removes exactly hash, access hash, room code and the two index entries, and no ingress set |
| `SessionStore.CutDeleteClosedForm` | backend/pkg/session/redis.go:272-285 | its first n commands drop exactly what they name |
| `StoreIndex.CreateKeeps` | backend/pkg/session/redis.go:85-136 | a create with a new id and a code no stored session answers to, scored no longer ago than the lag allows, keeps every index in agreement with the hashes, expiry included |
| `StoreIndex.CreateKeepsExactly` | backend/pkg/session/redis.go:114-118 | a create with a new id keeps the agreement if and only if no stored session answers to its code |
| `StoreIndex.RacingCreatesLoseACode` | backend/internal/signaling/grpc.go:133-150 | two creates that both found one code free leave both sessions stored and the code leading to the second only |
| `StoreIndex.CutCreateKeeps` | backend/pkg/session/redis.go:107-134 | a create whose retries run out after any number of commands harms no other session, and its own agrees with the indexes it did write |
| `StoreIndex.PartialCreateKeepsExactly` | backend/pkg/session/redis.go:107-134 | counted as a session like any other, it agrees with all indexes if and only if none or all of its commands took effect |
| `StoreIndex.UpdateKeeps` | backend/pkg/session/redis.go:213-252 | so does a status update that closes, or that changes a session still in the active set |
| `StoreIndex.UpdateKeepsExactly` | backend/pkg/session/redis.go:241-248 | and no other status update of a whole session does |
| `StoreIndex.UpdateSetsStatus` | backend/pkg/session/redis.go:213-252 | a status update sets that status on that session only, takes a closed id out of the active set, and without a record changes nothing |
| `StoreIndex.ReopeningLosesTheActiveEntry` | backend/pkg/session/redis.go:234-248 | closing and then reopening any stored session whose create was whole breaks the agreement |
| `StoreIndex.StatusWriteAfterExpiry` | backend/pkg/session/redis.go:222-236 | with time passing between test and write, the agreement survives exactly when the hash is still alive; otherwise the record is unreadable at every later time |
| `StoreIndex.StatusAloneIsUnreadable` | backend/pkg/session/redis.go:234-236 | a status written where there is no hash makes a record no read accepts at any later time |
| `StoreIndex.DeleteKeeps` | backend/pkg/session/redis.go:254-288 | deleting a session whose code leads to no other session keeps the agreement |
| `StoreIndex.DeleteRemovesTheSession` | backend/pkg/session/redis.go:254-288 | a delete removes the record, the access hash, the code and the id from its creator's set and the active set; ingress sets and other sessions' records and access stay; an unknown id changes nothing |
| `StoreIndex.CutDeleteKeeps` | backend/pkg/session/redis.go:272-287 | so does a delete that ends after any number of commands |
| `StoreIndex.DeleteKeepsExactly` | backend/pkg/session/redis.go:279-281 | a delete keeps the agreement if and only if it stops before the room code or the code is the session's own, which it is whenever the create got as far as writing it |
| `StoreIndex.DeleteTakesAnothersCode` | backend/pkg/session/redis.go:279-281 | a run in which it is not: the deleted session's create was cut short, and its code now belongs to another |
| `StoreIndex.ListUserKeeps` | backend/pkg/session/redis.go:452-467 | pruning a user's set while listing keeps the agreement, also when removals fail or the listing breaks off |
| `StoreIndex.ListExpiredKeeps` | backend/pkg/session/redis.go:314-331 | so does pruning closed ids from the active set |
| `StoreIndex.SideStepKeeps` | backend/pkg/session/redis.go:363-411 | granting and revoking access and recording ingresses keep the agreement |
| `StoreIndex.TickKeeps` | backend/pkg/session/redis.go:112-122 | no index entry of a live session expires before the session |
| `StoreIndex.RunKeeps` | backend/pkg/session/redis.go:85-486 | every serial run of store operations, creates and deletes cut short included, and clock ticks keeps the agreement |
| `StoreIndex.CodeLookupIsFilter` | backend/pkg/session/redis.go:185-211 | lookup by code returns a session if and only if it is stored, carries that code, and its create got as far as writing it; so no two share one |
| `StoreIndex.UserLookupIsFilter` | backend/pkg/session/redis.go:433-468 | a stored session in a user's set was created by that user, and every one created by that user whose create got as far as listing it is in the set |
| `StoreIndex.RunsKeepIndexesInAgreement` | backend/pkg/session/redis.go:85-468 | after every run from an empty store: both lookups are filters of the hashes as far as each create got, an open session is in the active set if and only if its create was whole, every stored record reads, no value has the wrong type; every session is whole when no create was cut short |
| `RedisStoreObject.RedisStore.constructor` | backend/pkg/session/redis.go:76-81 | a new store is empty with the configured lifetime |
| `RedisStoreObject.RedisStore.NewRedisStore` | backend/pkg/session/redis.go:53-82 | a store if and only if the backoff is positive and Redis answers; the backoff is checked first |
| `RedisStoreObject.RedisStore.Pipeline` | backend/pkg/session/redis.go:130 | sending commands one by one is running the pipeline |
| `RedisStoreObject.RedisStore.CreateSession` | backend/pkg/session/redis.go:85-136 | the new key space is that of the create function |
| `RedisStoreObject.RedisStore.UpdateSessionStatus` | backend/pkg/session/redis.go:213-252 | not found exactly when there is no hash; otherwise the status is written and a closed id leaves the active set |
| `RedisStoreObject.RedisStore.DeleteSession` | backend/pkg/session/redis.go:254-288 | the read error, or the key space after the delete pipeline |
| `RedisStoreObject.RedisStore.GrantAccess` | backend/pkg/session/redis.go:363-395 | not found exactly when there is no hash; otherwise the role is set and the access hash lives a full lifetime |
| `RedisStoreObject.RedisStore.AddIngressID` | backend/pkg/session/redis.go:471-486 | the ingress set gains the id and a full lifetime, with no test for the session |
| `RedisStoreObject.RedisStore.GetUserSessions` | backend/pkg/session/redis.go:433-468 | returns the stored sessions of the set's ids and drops exactly the ids without a record whose removal works; fails only on a read that fails or a record that does not parse |
| `RedisStoreObject.RedisStore.GetExpiredSessions` | backend/pkg/session/redis.go:291-334 | returns the open due sessions and drops exactly the due closed ids whose removal works; ids without a record stay; fails likewise |
| `RedisStoreObject.FoundListsStored` | backend/pkg/session/redis.go:452-467 | a listing holds exactly the stored sessions among its ids, each once |
| `RedisStoreObject.UserListingIsFilter` | backend/pkg/session/redis.go:433-468 | GetUserSessions returns stored sessions of that creator only, each once, and all of them but those whose create was cut short |
| `Retry.RetryRedisOp` | backend/pkg/session/redis.go:561-601 | between 1 and max(1, maxRetries) calls; every call before the last failed with an infrastructure error; a success, a cancelled or expired context, a missing key or one of the store's own answers is the last outcome and the result; an infrastructure error leads to a further call while attempts remain, unless the context ends first, whose error is then the result; the pauses are the backoffs in order |
| `Retry.BackoffFitsExactly` | backend/pkg/session/redis.go:591 | every pause is the intended power-of-two multiple if and only if the largest fits in 64 bits |
| `Retry.TotalPause` | backend/pkg/session/redis.go:585-598 | the pauses of n+1 calls add up to base*(2^n - 1) |
| `Retry.CreateAbsorbs` | backend/pkg/session/redis.go:107-132 | the create pipeline at a later time, with a score of its own, leaves the same store whether or not any prefix of it ran before |
| `Retry.DeleteAbsorbs` | backend/pkg/session/redis.go:272-285 | so does the delete pipeline |
| `Retry.RetriesLeaveNoTrace` | backend/pkg/session/redis.go:107-132 | any number of attempts that each applied a prefix, then one complete attempt, leave the store of the last attempt alone, while nothing expires |
| `JanitorLock.RunKeeps` | backend/internal/worker/janitor/janitor.go:89-110 | in every interleaving a sweep of a never-late process owns the live lock, and of two running sweeps one belongs to a process that was late |
| `JanitorLock.LateMeansOverrun` | backend/internal/worker/janitor/janitor.go:104-110 | being marked late means that at some state of the run a sweep of that process was past its TTL |
| `JanitorLock.OverlapNeedsAnOverrun` | backend/internal/worker/janitor/janitor.go:89-110 | any overlap implies that one of the two processes has had a sweep past its TTL |
| `JanitorLock.ExclusiveWhenPunctual` | backend/internal/worker/janitor/janitor.go:89-110 | if no sweep of the run ever passes its TTL, at most one sweep is between acquire and release |
| `JanitorLock.LockPassesOnExactly` | backend/internal/worker/janitor/janitor.go:89-110 | however a sweep that took the lock ended, one of another process runs later if and only if the lock was released or its TTL is over; it then owns the lock, and the first one's release does not free it |
| `JanitorLock.SiblingReleasesTheLock` | backend/cmd/signaling/main.go:49-59 | for every TTL and every two goroutines with one lock value, a run of that process alone in which they overlap and neither is past its TTL |
| `JanitorLock.OwnersKeep` | backend/internal/worker/janitor/janitor.go:21-26 | over sweepers with distinct lock values, every running sweep is late or owns the lock |
| `JanitorLock.OverlapsAreLateExactly` | backend/internal/worker/janitor/janitor.go:21-26 | for every set of sweepers: in every run over it every overlap contains a sweep that is itself late, if and only if no two of them share a lock value |
| `Histories.HandleKeeps` | backend/internal/signaling/grpc.go:17-251 | every request, whatever of its calls fails and however far a create gets, keeps the agreement and the ingress records, and each session keeps its record, is closed, expires, or is new |
| `Histories.ServeKeeps` | backend/internal/signaling/grpc.go:17-251 | so does every run |
| `Histories.CloseOneKeeps` | backend/internal/worker/janitor/janitor.go:160-178 | closing a session, with any faults, changes nothing but session records to closed and the active set |
| `Histories.CloseAllKeeps` | backend/internal/worker/janitor/janitor.go:123-125 | so does the janitor's loop |
| `Histories.WriteClosedView` | backend/pkg/session/redis.go:234-250 | each outcome of the status write leaves the agreement intact, and closes the session unless nothing was written |
| `Histories.CreateRequestView` | backend/internal/signaling/grpc.go:120-175 | CreateSession adds one session, whole or as far as its commands got, and touches no other record, also when granting access fails |
| `Histories.JoinEffect` | backend/internal/signaling/grpc.go:30-117 | a join changes only access hashes and ingress sets, and admits and creates an ingress only for the open session it resolved |
| `Histories.RetiredStep` | backend/internal/signaling/grpc.go:30-48 | no request reopens a closed or expired session, admits to it, or makes an ingress for it |
| `Histories.ClosedForever` | backend/internal/signaling/grpc.go:17-117 | over every run: closed or gone, never open again, no later token, no later ingress |
| `Histories.ClosedStep` | backend/internal/signaling/grpc.go:189-210 | a request that closes an open session is its creator's CloseSession or a sweep for which it is due |
| `Histories.ClosedOnlyByOwnerOrDueSweep` | backend/internal/signaling/grpc.go:189-210 | over every run: a session open at the start and closed at the end was closed by such a request of the run |
| `Histories.GoneStaysGone` | backend/pkg/session/redis.go:213-236 | an expired session never has a record again |
| `Histories.FirstCommandAloneIsStuck` | backend/pkg/session/redis.go:111-112 | a create that stops after its first command leaves an open session whose hash has no expiry; Lifetimes.RecordLivesExactly says that no other create does |
| `Histories.StuckStep` | backend/pkg/session/redis.go:111-112 | no request, sweep or clock tick closes or removes it |
| `Histories.StuckForever` | backend/pkg/session/redis.go:111-112 | over every run it stays open, and no code leads to it; Lifetimes.RecordLivesExactly is the exact condition |
| `Histories.CreateThenLookUp` | backend/internal/signaling/grpc.go:120-175 | the code of a stored create resolves to an active session with the id, code, creator and number of cameras asked for; it is in its creator's set and in the active set, and hash, code and set end after a lifetime; the code is answered if and only if access is granted, and then the creator is its director for as long |
| `Decimals.DecimalReadsBack` | backend/pkg/session/redis.go:101 | the stored number of cameras reads back as the number |
| `Histories.CreateAnswers` | backend/internal/signaling/grpc.go:120-175 | invalid if and only if the user is empty or there is no camera, and then nothing changes; the code if and only if both writes succeed; else internal |
| `Histories.CreatorCanClose` | backend/internal/signaling/grpc.go:189-210 | right after a create its creator's CloseSession succeeds and everybody else's is denied |
| `Histories.GrantGivesRole` | backend/pkg/session/redis.go:363-395 | granting sets that user's role and nobody else's, and the access hash lives a full lifetime from then; without a record nothing is granted |
| `Histories.RevokeTakesRole` | backend/pkg/session/redis.go:397-412 | revoking takes that user's role and nobody else's |
| `Histories.JoinAnswers` | backend/internal/signaling/grpc.go:30-48 | invalid without user, role or code; not found if and only if the lookup fails or no stored session carries the code, failed precondition if and only if the one found is closed, invalid if and only if it is open and the role is another than camera or director, admitted if and only if it is open and the role's calls succeed; refusals change nothing |
| `Histories.CloseAnswers` | backend/internal/signaling/grpc.go:189-222 | not found if and only if the lookup fails or no stored session carries the code, denied and closed if and only if their conditions on the one found hold; refusals change nothing and success means closed |
| `Histories.CleanDirectorJoin` | backend/internal/signaling/grpc.go:86-117 | a director joining an open session without failing calls is admitted and has the role; nobody else's role and no ingress changes |
| `Histories.RecordAddsIngress` | backend/pkg/session/redis.go:471-486 | recording adds that ingress to that session's set, which then lives a full lifetime, and changes no other key |
| `Histories.CleanCameraJoin` | backend/internal/signaling/grpc.go:50-84 | a camera joining an open session without failing calls is admitted, has its role, and its ingress exists and is recorded |
| `Histories.FailedCameraJoin` | backend/internal/signaling/grpc.go:50-72 | a camera whose ingress or access cannot be made is answered internal and leaves no ingress, unless its rollback failed too |
| `Sweeping.CloseRemovesIngresses` | backend/internal/signaling/livekit.go:22-41 | of the session's ingresses that were not leaked a close leaves exactly those whose delete failed, or all when the ids could not be read; other sessions' ingresses stay |
| `Sweeping.CleanCloseLeavesOnlyLeaks` | backend/internal/signaling/grpc.go:179-223 | a creator's close without failing calls closes the session and leaves only recorded leaks |
| `Sweeping.IngressesAreRecorded` | backend/internal/signaling/grpc.go:50-84 | over every run: an existing ingress of a stored session is in its ingress set unless its rollback or recording failed |
| `Sweeping.AbandonedStep` | backend/pkg/session/redis.go:315-331 | no request brings a session without a record back, takes it out of the active set or deletes an ingress of it |
| `Sweeping.ExpiredSessionsAreNeverCleanedUp` | backend/pkg/session/redis.go:315-331 | nor does any run |
| `Sweeping.AbandonedExactlyWhenExpired` | backend/pkg/session/redis.go:317-321 | an open session with an ingress is left in the active set with its ingress by the passing of time if and only if its hash expires; if its create was cut short, the ingress alone is |
| `Sweeping.EveryIdleSessionIsAbandoned` | backend/pkg/session/redis.go:112 | from every state, a session created, joined by a camera and left for one lifetime ends so, without any call failing |
| `Sweeping.ARunThatAbandons` | backend/pkg/session/redis.go:112 | the empty server is such a state |
| `Sweeping.SweepClosesExactlyTheDue` | backend/internal/worker/janitor/janitor.go:112-125 | a fault-free sweep closes exactly the open stored sessions with score at most now, changes no other record or key, takes from the active set exactly the due ids that have a record, leaves of the closed sessions' ingresses only those leaked before, and deletes no other |
| `Sweeping.SweepIsIdempotent` | backend/internal/worker/janitor/janitor.go:112-125 | a second sweep at the same now, however faulty, changes nothing |
| `Sweeping.CloseAllAs` | backend/internal/worker/janitor/janitor.go:160-170 | a fault-free pass over any list of sessions, repeated or not, closes exactly those, drops them from the active set and deletes their recorded ingresses, and nothing else |
| `Sweeping.SamePass` | backend/internal/worker/janitor/janitor.go:123-125 | two such passes over the same sessions leave the same store and ingresses, in whatever order |
| `Sweeping.SecondListing` | backend/internal/worker/janitor/janitor.go:112-125 | when a fault-free sweep has closed some of its sessions, a second one at the same now prunes nothing and finds exactly the others |
| `Sweeping.OverlappingSweepsAgree` | backend/internal/worker/janitor/janitor.go:89-126 | however the closes of two overlapping fault-free sweeps at one now interleave, they leave what one alone would |
| `Lifetimes.ExpiryNeverChanges` | backend/pkg/session/redis.go:112 | no request ends, prolongs or shortens the life of a session's record, lists it anew or changes its score |
| `Lifetimes.LifeOverRuns` | backend/pkg/session/redis.go:112 | over every run a record is there if and only if it was there and has not expired |
| `Lifetimes.RecordLivesExactly` | backend/pkg/session/redis.go:111-112 | over every run after a create: the record is there if and only if the first command took effect and either the create stopped there or its lifetime is not over; so from a lifetime on it is gone if and only if the create did not stop after its first command |
| `Lifetimes.DueExactlyFromItsSecond` | backend/pkg/session/redis.go:291-309 | at the real time a listed session, open or closed, is due if and only if the second of its score has begun, which is less than a second and the lag before its record expires |
| `Lifetimes.DueWindow` | backend/pkg/session/redis.go:125-128 | the time from the second of the score to the expiry is the create's lag plus what had passed of the second it was scored in; it is empty if and only if there was no lag and the session expires on a whole second |
| `Lifetimes.ClosedButListed` | backend/pkg/session/redis.go:241-250 | a close whose ZREM fails answers success and leaves the closed session listed |
| `Lifetimes.NextSweepReconcilesExactly` | backend/pkg/session/redis.go:241-248 | a fault-free sweep at the real time removes a listed id if and only if it has a record and the second of its score has begun |
| `Lifetimes.TheJanitorMisses` | backend/internal/worker/janitor/janitor.go:66-87 | in every run whose sweeps are given no later time than the real one, a session without a window that CloseSession does not close is open until it is gone |
| `Lifetimes.TheJanitorCanCloseExactly` | backend/internal/worker/janitor/janitor.go:66-87 | some such run closes an open session whose create was whole if and only if its window is not empty |
| `LateJoins.LateJoinExactly` | backend/internal/signaling/grpc.go:30-84 | with any requests served between a camera's lookup and the rest of its join: admitted if and only if the record is still there; an ingress of a closed session is left if and only if it was closed in between |
| `LateJoins.RetiredIngressStep` | backend/internal/worker/janitor/janitor.go:123-125 | no request but a CloseSession by the creator deletes an ingress of a closed or expired session |
| `LateJoins.RetiredIngressStays` | backend/internal/worker/janitor/janitor.go:123-125 | nor does any run without one |
| `ServerObject.Server.constructor` | backend/internal/signaling/grpc.go:17-48 | a new server has no ingresses |
| `ServerObject.Server.SendPipeline` | backend/pkg/session/redis.go:387-393 | a pipelined write applies completely, or a prefix of it |
| `ServerObject.Server.CreateSession` | backend/internal/signaling/grpc.go:120-175 | refused or without a code nothing changes; otherwise the world of the request's function, however far the store's create gets, under a code that was free |
| `ServerObject.Server.JoinSession` | backend/internal/signaling/grpc.go:17-48 | the checks and the lookup in order, then the joining of the role: world and answer of the request's function |
| `ServerObject.Server.JoinCamera` | backend/internal/signaling/grpc.go:50-84 | ingress first, rolled back when access cannot be granted, recorded last |
| `ServerObject.Server.JoinDirector` | backend/internal/signaling/grpc.go:86-117 | access before the token; a token that cannot be signed leaves the access granted |
| `ServerObject.Server.DeleteIngresses` | backend/internal/signaling/livekit.go:25-41 | the loop deletes exactly the recorded ids whose delete does not fail |
| `ServerObject.Server.CloseRoom` | backend/internal/worker/janitor/janitor.go:160-170 | ingresses first, then the status, whatever failed before |
| `ServerObject.Server.CloseSession` | backend/internal/signaling/grpc.go:179-223 | only the creator closes; also a closed session may be closed again; a failed lookup answers not found |
| `ServerObject.Server.GetMySessions` | backend/internal/signaling/grpc.go:226-251 | fails if and only if Redis does; otherwise the stored sessions the user created, each once, but for those whose create was cut short |
| `ServerObject.Server.CloseListed` | backend/internal/worker/janitor/janitor.go:123-125 | a close that fails does not end the loop |
| `ServerObject.Server.SweepAt` | backend/internal/worker/janitor/janitor.go:89-126 | nothing without the lock; with it, a sweep in the sense of the theorems, which closes nothing if and only if the listing fails or finds nothing |
| `ServerObject.FoundOpenListsOpen` | backend/pkg/session/redis.go:314-331 | the expired listing holds exactly the stored open sessions among its ids, each once |
| `ServerObject.SweepIsPossible` | backend/internal/worker/janitor/janitor.go:112-125 | what the listing gives the loop is exactly the due open sessions |
| `ServerObject.OnlyRedisFails` | backend/pkg/session/redis.go:317-322 | while the indexes agree, a listing fails only because a call to Redis does |
| `RoomCode.PrintInjective` | backend/pkg/session/room.go:27 | a printed code is the prefix and six digits that read back as the number; two are equal if and only if their numbers are |
| `RoomCode.PaddedReadsBack` | backend/pkg/session/room.go:27 | the zero-padded digits are the number in decimal, most significant digit first |
| `RoomCode.NewRoomCode` | backend/pkg/session/room.go:21-40 | the first free draw of at most ten; every earlier one was taken; a lookup that fails, and the lookup's own errors, pass through |
| `RoomCode.NormaliseIdempotent` | client/src/ui/controls/DLTextField.qml:106-116 | normalising twice is normalising once, on every text |
| `RoomCode.FullLengthExactly` | client/src/application/views/JoinSessionView.qml:110-116 | the normalised text has length 11 if and only if the input has ten or more alphanumerics |
| `RoomCode.PrintedCodesAreNormal` | client/src/ui/controls/DLTextField.qml:106-116 | every printed code is a fixed point of the text field |
| `RoomCode.AnySpellingBecomesTheCode` | client/src/ui/controls/DLTextField.qml:106-116 | a text whose first ten alphanumerics spell a code in either case, with anything between and after them, becomes that code |
| `FrameQueue.PushKeeps` | video-core/src/pipeline/video_pipeline.cpp:57-63 | a push keeps the balance of captured, popped, dropped and queued frames and the shape of the queue |
| `FrameQueue.TakeKeeps` | video-core/src/pipeline/video_pipeline.cpp:106-115 | so does a pop |
| `FrameQueue.VideoPipeline.constructor` | video-core/include/pipeline/video_pipeline.hpp:82-85 | a new pipeline is empty and in balance |
| `FrameQueue.VideoPipeline.OnFrame` | video-core/src/pipeline/video_pipeline.cpp:57-63 | the critical section is the push, the new frame is last, and framesDropped counts the dropped frames |
| `FrameQueue.VideoPipeline.TakeFrame` | video-core/src/pipeline/video_pipeline.cpp:106-115 | a frame of the three newest, later than every frame taken before, or nothing exactly when the queue is empty |
| `CameraPipeline.NextKeeps` | video-core/src/pipeline/video_pipeline.cpp:51-120 | every step of any thread keeps the frame balance and the stop protocol's invariant |
| `CameraPipeline.RunsKeep` | video-core/src/pipeline/video_pipeline.cpp:26-120 | so does every interleaving over any number of cycles |
| `CameraPipeline.FramesAreConserved` | video-core/src/pipeline/video_pipeline.cpp:51-67 | captured = popped + dropped + queued; the queue is the newest frames in order, at most three; popped frames increase; the encoder gets exactly the popped frames in order |
| `CameraPipeline.DroppedExactlyWhenOvertaken` | video-core/src/pipeline/video_pipeline.cpp:57-63 | frame k is dropped if and only if frame k+3 is captured and k was not popped; a popped frame was one of the three newest |
| `CameraPipeline.SleeperIsAboutToBeNotified` | video-core/src/pipeline/video_pipeline.cpp:63-65 | if the encode thread sleeps on a non-empty queue, the notification that wakes it is pending |
| `CameraPipeline.NoFramesAfterCaptureEnds` | video-core/src/pipeline/video_pipeline.cpp:50-66 | with capture ended no frame is captured before the next start |
| `CameraPipeline.CaptureEndsForTheCycle` | video-core/src/pipeline/video_pipeline.cpp:89-92 | so after the camera's own end and after stop() has stopped it |
| `CameraPipeline.AtMostOneFrameAfterStop` | video-core/src/pipeline/video_pipeline.cpp:102-118 | after the stop request at most one more frame reaches the encoder |
| `CameraPipeline.FramesAfterStopExactly` | video-core/src/pipeline/video_pipeline.cpp:102-118 | by its exit the thread has encoded one frame after the request if it held one or was about to take one from a non-empty queue, and none otherwise |
| `CameraPipeline.StopMakesProgress` | video-core/src/pipeline/video_pipeline.cpp:102-120 | after the request every step but a spurious wakeup is the encode thread's or the join, and decreases a measure unless the thread is caught in the wait |
| `CameraPipeline.DrainReachesJoin` | video-core/src/pipeline/video_pipeline.cpp:93-94 | from every state not caught in the wait, stop returns within four steps |
| `CameraPipeline.DoomedForever` | video-core/src/pipeline/video_pipeline.cpp:107-109 | caught in the wait means caught for ever, without a spurious wakeup |
| `CameraPipeline.StopReturnsUnlessCaughtAsleep` | video-core/src/pipeline/video_pipeline.cpp:89-94 | stop can return if and only if the thread is not caught; caught means it saw an empty queue before the request and slept after the notification or has yet to; a spurious wakeup frees it |
| `CameraPipeline.StopCanHang` | video-core/src/pipeline/video_pipeline.cpp:93-94 | an ordinary run reaches such a state |
| `Leftovers.StaleFramesAreTheLastThree` | video-core/src/pipeline/video_pipeline.cpp:72-76 | a frame encoded after a stop was captured after it or is one of those, at most three, still queued at the stop |
| `Leftovers.LeftoversAreServedFirst` | video-core/src/pipeline/video_pipeline.cpp:89-100 | from every stopped state with a non-empty queue, a next cycle that encodes a frame of the earlier one ahead of its own |
| `Leftovers.StopLeavesFrames` | video-core/src/pipeline/video_pipeline.cpp:102-103 | such a state is reached |
| `Leftovers.FreshStaysFresh` | video-core/src/pipeline/video_pipeline.cpp:106-115 | once no queued frame is older than a given one, none is ever taken again |
| `Leftovers.EmptyQueueMeansFreshFrames` | video-core/src/pipeline/video_pipeline.cpp:89-100 | after a stop with an empty queue every frame encoded was captured after it |
| `SoftwareEncoding.SoftwareEncoder.constructor` | video-core/include/encode/software_encoder.hpp:26-27 | a new encoder is closed with no request pending |
| `SoftwareEncoding.SoftwareEncoder.Initialize` | video-core/src/encode/software_encoder.cpp:22-89 | opening starts a new stream and keeps a pending request; on a running encoder the frames of the old context are lost, and a context that cannot be opened leaves it running without a usable codec |
| `SoftwareEncoding.SoftwareEncoder.RequestKeyframe` | video-core/src/encode/software_encoder.cpp:91-93 | a request joins the history and nothing else changes |
| `SoftwareEncoding.SoftwareEncoder.Drain` | video-core/src/encode/software_encoder.cpp:183-199 | as many packets as are ready leave, oldest first; accepted frames stay accounted for |
| `SoftwareEncoding.SoftwareEncoder.AllDelivered` | video-core/src/encode/software_encoder.cpp:183-199 | the packets delivered are those of the first accepted frames, the rest are in the codec, and all are delivered if and only if the codec is empty |
| `SoftwareEncoding.SoftwareEncoder.EncodeFrame` | video-core/src/encode/software_encoder.cpp:95-202 | marked intra if and only if running with a request since the last frame that reached the flag; an accepted frame delivers as many packets as the codec has ready, which is every accepted frame's when it is always ready; they are in order with rescaled timestamps; a refused frame delivers none |
| `SoftwareEncoding.SoftwareEncoder.Stop` | video-core/src/encode/software_encoder.cpp:204-236 | afterwards every accepted frame has been delivered once, in order, with its rescaled timestamp |
| `Keyframes.FlagMeansPending` | video-core/src/encode/software_encoder.cpp:91-93 | the flag is set if and only if a request arrived since the last exchange |
| `Keyframes.ForcedExactlyWhenRequested` | video-core/src/encode/software_encoder.cpp:161-163 | under every interleaving a frame is forced if and only if a request arrived since the previous exchange; the hardware encoder forces none |
| `Keyframes.RequestServedByNextFrame` | video-core/src/pipeline/video_pipeline.cpp:78-82 | a request is served by the first frame after it and by that one only |
| `Keyframes.ForcedAtMostRequests` | video-core/src/encode/software_encoder.cpp:161-163 | forced frames never outnumber requests |
| `Timestamps.RescaleIsNearest` | video-core/src/encode/encoder.cpp:21-27 | rescaling is within half a unit of the exact quotient |
| `Timestamps.HalvesGoAwayFromZero` | video-core/src/encode/encoder.cpp:21-27 | a tie goes up, a negative value is the mirror image of the positive one, and a packet without a timestamp is at 0 |
| `Timestamps.RescaleMonotone` | video-core/src/encode/encoder.cpp:21-27 | rescaling keeps order |
| `Timestamps.RoundTripError` | video-core/src/encode/software_encoder.cpp:165-170 | ticks and back moves a timestamp by at most half a frame period plus half a nanosecond |
| `Timestamps.RoundTripMonotone` | video-core/src/encode/software_encoder.cpp:187-190 | ticks and packet timestamps keep the capture order |
| `Timestamps.TicksSurvive` | video-core/src/encode/encoder.cpp:21-27 | tick to nanoseconds to tick is exact up to 10^9 frames a second |
| `Timestamps.TicksSurviveExactly` | video-core/src/encode/encoder.cpp:21-27 | it is exact for every tick if and only if the rate is at most 10^9 |
| `Timestamps.SurvivorsSpread` | video-core/src/encode/encoder.cpp:21-27 | if every tick survives, tick k takes at least k nanoseconds |
| `Timestamps.SpacedFramesGetDistinctTicks` | video-core/src/encode/software_encoder.cpp:165-170 | frames a period apart get strictly increasing ticks |
| `Timestamps.PublishedIsRelativeToFirst` | networking/src/whip_publisher.cpp:288-293 | every published timestamp is the 64-bit difference to the first packet |
| `Timestamps.RelativeValue` | networking/src/whip_publisher.cpp:291-292 | the unsigned difference of two 63-bit timestamps is the true one, or off by 2^64 when that is negative |
| `Timestamps.WrapsExactlyWhenEarlier` | networking/src/whip_publisher.cpp:291-293 | it is the true difference if and only if the packet is not earlier than the first, and otherwise off by 2^64 |
| `Timestamps.PublishedFollowsCapture` | networking/src/whip_publisher.cpp:288-293 | for ordered capture times: starts at 0, never wraps, never decreases, drifts from the capture spacing by at most a frame period plus a nanosecond |
| `Timestamps.StaleFirstFrameWraps` | networking/src/whip_publisher.cpp:288-293 | a frame captured, by its timestamp, more than a period and a nanosecond before the first one published is stamped beyond 2^63 |
| `PublishedStream.EncodedTimesAreOrdered` | video-core/src/pipeline/video_pipeline.cpp:102-118 | frames in capture order have capture times in order, for a clock that does not go back between the first and the last of them |
| `PublishedStream.EncodedIncreases` | video-core/src/pipeline/video_pipeline.cpp:102-118 | in every interleaving the encoder gets frames in capture order, whatever is dropped |
| `PublishedStream.StreamFollowsTheCamera` | networking/src/whip_publisher.cpp:288-293 | in every interleaving over any number of cycles, a stream of encoded frames whose own clock does not go back is published from 0, without wrapping or going back, within a period and a nanosecond of its capture times |
| `PublishedStream.FreshStreamNeverWraps` | video-core/src/pipeline/video_pipeline.cpp:89-100 | after a stop with an empty queue the next cycle's stream does not wrap, whatever its clock started from |
| `PublishedStream.LeftoverStreamWraps` | video-core/src/pipeline/video_pipeline.cpp:89-100 | after a stop with frames left over some next cycle's stream does |
| `PublishedStream.NextStreamNeverWrapsExactly` | client/src/session/camera_session.cpp:31-98 | with a clock that restarts, every next cycle is published without wrapping if and only if the queue was empty when the pipeline stopped |
| `PublishedStream.UnstampedWrapsExactly` | video-core/src/capture/camera_capture.cpp:402-406 | a stream in which buffers without a timestamp are stamped 0 wraps if and only if it holds one and its first timestamp is not 0 |
| `PublishedStream.GappyStreamNeverWrapsExactly` | video-core/src/capture/camera_capture.cpp:402-406 | so, after a stop with an empty queue, the next cycle's stream is published without wrapping if and only if its first timestamp is 0 or no such buffer is encoded |
| `CameraSession.PublishedAppend` | networking/src/whip_publisher.cpp:288-293 | stamping packet by packet is stamping the stream |
| `CameraSession.PushKeeps` | networking/src/whip_publisher.cpp:269-293 | a push keeps what was stamped equal to the stream's relative timestamps |
| `CameraSession.WhipPublisher.constructor` | networking/src/whip_publisher.cpp:187-190 | a new publisher has no pipeline and does not run |
| `CameraSession.WhipPublisher.Start` | networking/src/whip_publisher.cpp:187-223 | succeeds exactly when it then runs; starting a running one changes nothing |
| `CameraSession.WhipPublisher.Stop` | networking/src/whip_publisher.cpp:225-267 | never running afterwards; a stopped one loses its pipeline and its stream start |
| `CameraSession.WhipPublisher.Push` | networking/src/whip_publisher.cpp:269-293 | ignored unless running; otherwise stamped relative to the first packet of the stream |
| `CameraSession.NextKeeps` | client/src/session/camera_session.cpp:31-99 | every step of start, stop and the encode thread, whatever fails, keeps packets and a stopped publisher apart |
| `CameraSession.RunsKeep` | client/src/session/camera_session.cpp:5-99 | so does every run |
| `CameraSession.PacketsOnlyReachARunningPublisher` | client/src/session/camera_session.cpp:58-98 | in every run no packet, flushed ones included, reaches a publisher that is not running, and the stamps are the stream's relative timestamps |
| `CameraSession.StreamIsWhatWasDelivered` | networking/src/whip_publisher.cpp:269-293 | in every run the stream that is stamped is the packets delivered since the publisher last started, each once, in order |
| `CameraSession.PacketsAreConserved` | video-core/src/encode/software_encoder.cpp:204-236 | in every run each frame sent to the codec has been delivered as a packet or is still in the codec |
| `CameraSession.StopMakesProgress` | client/src/session/camera_session.cpp:88-99 | inside stop() each step of its caller brings it closer to its end, where everything is off; the thread and the codec do not hold it up |
| `CameraSession.StopCanFinish` | client/src/session/camera_session.cpp:88-99 | from everywhere inside stop() there is a way to its end, in exactly the steps left and one per packet in the codec, each of which is delivered |
| `CameraSession.StopTurnsEverythingOff` | client/src/session/camera_session.cpp:88-99 | stop() on a running session reached by any run can end, in five steps and one per packet in the codec, with no thread, no open codec and the publisher not running |
| `CameraSession.StopEndsOff` | client/src/session/camera_session.cpp:88-99 | in every interleaving from inside stop() its caller makes at most the steps left, and wherever it has come to rest everything is off |
| `CameraSession.StartMakesProgress` | client/src/session/camera_session.cpp:5-81 | inside start() only its caller moves, closer to its end; it goes on while nothing fails, and otherwise ends with nothing running |
| `CameraSession.StartRunsExactly` | client/src/session/camera_session.cpp:5-81 | every run of start() to its end takes at most seven steps and ends with publisher, codec, thread and session running if and only if no component failed, and otherwise with nothing running |
| `CameraSession.StartCanFinish` | client/src/session/camera_session.cpp:5-81 | from everywhere inside start() there is a way to its end, whichever components work, and it ends running if and only if all those left do |
| `CameraSession.StartRunsIfEverythingWorks` | client/src/session/camera_session.cpp:5-81 | start() on a session at rest and not running ends running if and only if all six components work, and otherwise with nothing running, leaving no encoder if it could not be made and an open codec if only the camera failed |
| `Director.LessTotal` | client/src/directorsession.cpp:14-16 | the map's key order is total |
| `Director.LessTransitive` | client/src/directorsession.cpp:14-16 | and transitive |
| `Director.PositionSplits` | client/src/directorsession.cpp:35-36 | the position of a sid has exactly the smaller keys before it, and holds the sid if and only if it is attached |
| `Director.InsertKeepsSorted` | client/src/directorsession.cpp:34 | inserting a new sid there keeps key order |
| `Director.DirectorSession.constructor` | client/src/directorsession.cpp:5 | a new session has no tracks |
| `Director.DirectorSession.IndexOf` | client/src/directorsession.cpp:35-36 | walking the map gives the position |
| `Director.DirectorSession.AttachTrack` | client/src/directorsession.cpp:21-39 | adds if and only if the sid is new and the stream was created, at its rank, which is reported |
| `Director.DirectorSession.DetachTrack` | client/src/directorsession.cpp:41-49 | removes if and only if attached, reporting the rank it had |
| `Director.DirectorView.constructor` | client/src/application/views/SessionDirectorView.qml:18-19 | nothing listed, nothing selected |
| `Director.DirectorView.SetActiveCamera` | client/src/application/views/SessionDirectorView.qml:23-34 | a changed index assigns the main feed that track of the session, or none; without a session the main feed keeps what it shows |
| `Director.DirectorView.TrackAdded` | client/src/application/views/SessionDirectorView.qml:67-72 | the new list, and the index moved up when the track sorts at or before it |
| `Director.DirectorView.TrackRemoved` | client/src/application/views/SessionDirectorView.qml:74-81 | the new list, and the index cleared or moved down |
| `Director.DirectorView.Arrive` | client/src/directorsession.cpp:21-39 | an arriving track keeps selection, index and main feed in agreement |
| `Director.DirectorView.Leave` | client/src/directorsession.cpp:41-49 | so does a leaving one |
| `Director.DirectorView.Select` | client/src/ui/controls/CameraList.qml:68-72 | a click on one of the four slots with a track makes that rank active and puts that track on the main feed, and on any other slot nothing; without a session the index moves and the main feed does not |
| `Director.ApplyKeeps` | client/src/application/views/SessionDirectorView.qml:67-81 | every event keeps the agreement |
| `Director.RunKeeps` | client/src/application/views/SessionDirectorView.qml:67-81 | so does every sequence of events |
| `Director.AttachedExactly` | client/src/directorsession.cpp:21-49 | after every sequence a sid is in the map if and only if it arrived with a stream and has not left since |
| `Director.SelectionIsLastClick` | client/src/application/views/SessionDirectorView.qml:59-61 | the selection is the track at the clicked rank of the last click that found one, until its detach |
| `Director.ActiveCameraFollowsTheSelection` | client/src/application/views/SessionDirectorView.qml:23-34 | across every sequence of attaches, detaches and clicks: from the last click that found a track, until that track leaves, activeCamera is its rank in sid order and the main feed holds it; after it left, and before any such click, there is none; the list is the attached tracks in sid order |
| `Director.NoTrackOnTwoFeeds` | client/src/ui/controls/CameraList.qml:52-66 | after every sequence no track is on two feeds |
| `Director.BetweenTheTwoAssignments` | client/src/application/views/SessionDirectorView.qml:67-72 | inside onTrackAdded the selected track is on two feeds if and only if the new one sorts before it and it is within the visible slots |
| `Director.BetweenTheTwoAssignmentsOnRemoval` | client/src/application/views/SessionDirectorView.qml:74-81 | inside onTrackRemoved, if and only if the removed one sorted before it and its new slot is visible |
| `Director.SelectedTrackShownTwice` | client/src/application/views/SessionDirectorView.qml:67-72 | for every two sids in order, a console reached by one arrival and one click at which the next arrival shows the selected track twice |
| `PlaneCopy.CopyRow` | video-core/src/capture/camera_capture.cpp:396-398 | one row arrives and no other byte changes |
| `PlaneCopy.CopySampleRow` | video-core/src/capture/camera_capture.cpp:395-399 | one row of samples arrives, rows already copied stay, nothing outside the rectangle changes |
| `PlaneCopy.CopyPlane` | video-core/src/capture/camera_capture.cpp:395-399 | every sample of the rectangle arrives and nothing outside it changes |
| `PlaneCopy.CapturePlane` | video-core/src/capture/camera_capture.cpp:384-400 | for all strides at least the plane's width every visible sample arrives and nothing past the last row is written |
| `PlaneCopy.ReaderPlane` | client/src/framereader.cpp:103-128 | for even sizes every visible sample arrives; for odd ones the last chroma row and column keep their old content |
| `PlaneCopy.CopiesShowTheSameImage` | client/src/framereader.cpp:103-128 | two complete copies of one source show the same image whatever their strides |
| `PlaneCopy.BothCopies` | client/src/framereader.cpp:103-128 | for even sizes the capture side's and the director's copy of one source show the same image |

## Left out

- Time inside an operation: each store operation and each handler happens at one instant of one clock, shared by Redis and the servers, except that a create's score may be computed any time up to a lag before. `StatusWriteAfterExpiry`, `LateJoins` and `OverlappingSweepsAgree` treat three gaps inside operations; others, such as an expiry between two commands of a pipeline, are not modelled.
- Concurrent RPCs: handlers run one after the other, except that a camera's join may be overtaken after its lookup (`LateJoins`), two creates may race for a code (`RacingCreatesLoseACode`), two sweeps may overlap (`OverlappingSweepsAgree`), and the sweep lock is modelled under every interleaving.
- Attempts of one retried write at different times within a request: a failed write leaves the effect of some prefix of its commands at the request's instant; `Retry` treats attempts spread over time.
- A CreateIngress that reports an error after LiveKit made the ingress: an error means no ingress.
- The deletion of the LiveKit room itself, which nothing in the model depends on.
- Texts of created_at and max_cameras: stored texts parse exactly when they are not empty.
- The session lifetime is a positive whole number of seconds.
- The order in which Redis returns members of a set: listings come in some order.
- The lock key's place in the session key space: the lock has its own state machine, since nothing else writes its key.
- Timers and polling of the janitor, Ping, GetRole, HasAccess, isRedisErr, metrics and the active-session gauge, and a limit on cameras, which the code does not enforce.
- Randomness: session ids are new, room code draws are arbitrary numbers below a million.
- FrameQueue.VideoPipeline.OnFrame: framesDropped does not wrap at 32 bits; neither does frameCount in the transition system.
- A start whose capture device fails is left out of CameraPipeline, since it leaves the pipeline stopped; CameraSession covers it.
- SoftwareEncoding.SoftwareEncoder.Initialize: a context that cannot be allocated for lack of memory is not modelled.
- Codec internals, pixel conversion and dts: the codec returns one packet per accepted frame in order.
- Timestamps.RescaleIsNearest: 64-bit overflow inside av_rescale_q is not modelled; packet timestamps are taken to fit in 63 bits where the publisher subtracts them.
- Building and watching the GStreamer pipelines, the buffer duration and the flow results of push-buffer.
- Destruction of a CameraSession.
- Director.DirectorView.Arrive: detachAllTracks, a new session after the first and the order in which Qt re-evaluates bindings are not modelled.
- The RGBA fallback of the frame reader.
- Generated gRPC code, HTTP probes, webhooks, token contents, configuration, infrastructure.
