# Nexus protocols in Dafny

A model of the protocols and state machines around the Nexus sandbox, and proofs about them. `dafny verify dfyconfig.toml` checks everything.

| part | files |
|---|---|
| recall replay protection | `ReplayProtocol`, `ReplayDatabase`, `ReplayNamespace`, `RecallVerifier` |
| timeline sink, spool and digest chain | `TimelineChain`, `TimelineService`, `TimelineSpool`, `TimelineReplay`, `TimelineSink` |
| tenant registry freshness, rate limits | `TenantRegistry`, `RateLimits` |
| hypervisor pool | `HypervisorPool` |
| capability profiles | `ProfileText`, `ProfileManifest`, `ProfileRendering`, `ProfileRoundTrip`, `ProfileReach`, `ProfileMeaning` |
| instinct store | `InstinctStore`, `InstinctPersistence` |
| pinned keys | `PinnedKeys` |
| capsule and frame encodings | `CanonicalJson`, `CanonicalTree`, `Dsse`, `Frames` |
| shared | `Encoding`, `Ordering`, `Lists`, `Options` |

Code that the source runs step by step is a class or a loop here, and each such method is proved equal to a specification function; the lemmas are about those functions, and say what they compute in terms of the inputs alone. The three concurrent protocols (replay store, pool, instinct store) are step functions with an enabling condition. Their lemmas range over every legal sequence of steps. Their classes run one call against the same step function, with any number of steps of other callers in between.

Times are natural numbers of milliseconds or seconds as in the source, confidences are reals. SHA-256, Ed25519, base64, JSON parsing and serialization, network answers, disk outcomes and clocks are parameters. A lemma that needs a digest to be free of collisions says so.

## What the code does not promise

Where a stated property turned out to hold only under a condition, the condition is proved to be exact, or a run that breaks the property is given.

- Replay protection leaves the purge cutoff to its caller (`src/aeon/recall_v2_postgres.rs:112-113`). An envelope is verified at most once for every disciplined caller if and only if no cutoff exceeds a clock reading still in flight by more than one tick (`SideConditionExact`). With two ticks, `DoubleAcceptanceHappens` is a run that accepts one envelope twice.
- `docs/mcp-setup.md:275-277` says a snapshot is kept until it reaches the staleness limit. In every configuration some run shows a snapshot that has reached it: the greatest age of a visible snapshot is exactly `MaxAge`, which is one unit short of the limit plus one refresh interval if a load may take as long as `BestOffset`, and otherwise the limit rounded up to whole intervals (`AgeNeverExceeds`, `MaxAgeAttained`, `MaxAgeReachesLimit`).
- `src/aeon.rs:1396-1397` says that distinct events cannot collide. Two reports share an identity exactly if agent and session, joined by the separator, are the same text and the events are equal or both capability denials (`SameIdentityExact`). So all denials of one session are one to the spool: an offline batch is kept whole exactly if none of its events clashes with another of the batch or with one the file holds by then, from whichever delivery (`BatchKeptWhole`). Different agents or sessions are mixed up only if an agent id holds the separator (`OriginsExact`): such an id shares every identity with a shorter agent id under a longer session (`SeparatorCollision`), and agents without the separator never collide, whatever their sessions hold (`SessionsStayApart`).
- `src/aeon.rs:1171-1174` says that the append-if-absent guard makes any retry idempotent. A spool file that cannot be read, but can be appended to, yields no ids (`src/aeon.rs:1413-1425`), and the guard does not see what is in it. One record per id holds over any attempts exactly if no such attempt brought an id that was spooled before it (`OneRecordPerId`), and a retry completes or repeats a batch without duplicates exactly if it can read the file or meets none of its ids there (`RetryCompletes`, `RespoolIsNoOp`).
- What the service has acknowledged is always a verified chain. A service can also store an event whose answer is lost (`src/aeon.rs:1220-1254`), and then the sink goes on from the tip before it: what the service holds is a verified chain exactly if it stored no event twice and none after one whose storing the sink did not learn of (`HeldChainExact`).
- The comment at `src/daemon/pool.rs:60` holds if every instance is pushed back before its permit is released. `Drop` does not wait for the push, and a pool of any size has a run in which the pop finds the queue empty (`PanicReachable`); `PopPanicsExactly` says when.
- A fixed window admits up to 2n - 1 requests in a half-open minute, where n is the highest limit the tenant's keys carry, and 2n if some request comes under the limit zero; both numbers do occur (`FixedWindowBoundAttained`).
- After a replay a delivered event is still in the file, and can be posted again, exactly if the file could not be opened for rewriting or another copy of the event is older than the `since` bound; a rewrite that is cut short leaves no other way (`DeliveredComesBack`).
- A store without pending or given up writes reopens to the same contents exactly if every category has a file of its own that a directory scan finds (`QuietStoreReopens`). For categories without slashes that fails exactly for the category `""`, which is written to a file without extension (`SlashFreeCategories`); a category with a slash can lead to another directory or to the file of another category.
- Without an `[mcp]` table all six switches of the tool surface are off, but there is no allowlist, so that every other tool remains callable (`SwitchesFailClosed`).
- A list of strings in a profile is read back exactly if no item contains a comma (`ArrayReadsExactly`); a manifest exactly if it is `Expressible`, and no text loads as any other (`ReachableExactly`).

## Model

| member | source | states |
|---|---|---|
| ReplayProtocol.AtMostOnce | src/aeon/recall_v2.rs:249-262 | over every interleaving of verifications, rollbacks, abandoned calls and purges whose cutoffs stay within one tick of the readings in flight, one claim is returned as verified at most once |
| ReplayProtocol.SideConditionExact | src/aeon/recall_v2_postgres.rs:112-115 | at-most-once holds of all disciplined runs if and only if the slack between cutoff and reading is at most one |
| ReplayProtocol.DoubleAcceptanceHappens | src/aeon/recall_v2.rs:388-403 | with a slack of two, a legal run verifies one claim twice |
| ReplayProtocol.SettledIsSpent | src/aeon/recall_v2_postgres.rs:167-213 | once any consume of a claim has committed, no verification that had not already won can win with it |
| ReplayProtocol.RowNeverLost | src/aeon/recall_v2_postgres.rs:183-209 | the missing-row branch is never taken, whatever the cutoffs, because shared and exclusive locks are held to the end of the transaction |
| ReplayProtocol.RefusalHasCause | src/aeon/recall_v2.rs:388-403 | over every legal run a verification is refused only if another one with the same namespace and nonce has consumed it first |
| ReplayProtocol.ExpiryIsSettled | src/aeon/recall_v2_postgres.rs:26-44 | the expiry of every row is that of a claim that was settled on it |
| ReplayProtocol.ExpiryStep | src/aeon/recall_v2_postgres.rs:38-67 | in one step an expiry that stays does not decrease, and a row goes only when a purge commits that had selected it below its cutoff |
| ReplayProtocol.ExpiryNeverDecreases | src/aeon/recall_v2_postgres.rs:38-44 | over every run that keeps a row its expiry does not decrease |
| ReplayProtocol.RowGoesInPurge | src/aeon/recall_v2_postgres.rs:46-67 | a row that does not stay is first deleted by the commit of a purge whose cutoff is above the expiry it had by then |
| ReplayProtocol.HorizonNeverDecreases | src/aeon/recall_v2_postgres.rs:116-139 | the highest cutoff used is monotone over every run |
| ReplayProtocol.PunctualIsDisciplined | src/aeon/recall_v2_postgres.rs:112-113 | if every consume comes within a time limit of its clock reading and no clock is wrong by more than a known error, hosts that take cutoffs that far behind their own clocks meet the side condition |
| ReplayProtocol.PunctualVerifiesOnce | src/aeon/recall_v2.rs:249-262 | under such hosts a claim is verified at most once |
| ReplayProtocol.InvKept | src/aeon/recall_v2_postgres.rs:26-67 | every step keeps the lock discipline, the clock bounds, and that every consumed claim is remembered |
| ReplayDatabase.Database.Execute | src/aeon/recall_v2_postgres.rs:335-344 | a statement runs when it is not blocked, or the transaction is given up; nothing else of this caller changes |
| ReplayDatabase.Database.ConsumeTransaction | src/aeon/recall_v2_postgres.rs:167-213 | insert, extend, probe, commit: the verdict returned is that of the committed transaction, and a missing row is never reported |
| ReplayDatabase.Database.ConsumeOnce | src/aeon/recall_v2_postgres.rs:146-164 | the guards on nonce and expiry come first and refuse without touching the table |
| ReplayDatabase.Database.PurgeExpiredBefore | src/aeon/recall_v2_postgres.rs:116-139 | from the table it found when its lock was granted a purge deletes exactly the oldest expired rows up to the batch size and reports their number; a timeout leaves that table or the purged one, and a refused argument changes nothing |
| ReplayDatabase.SelectExpired | src/aeon/recall_v2_postgres.rs:46-67 | the rows selected are below the cutoff, as many as the batch allows, and no older one is left out |
| ReplayDatabase.PurgesDrain | src/aeon/recall_v2_postgres.rs:46-67 | after n purges at one cutoff exactly max(0, expired - n * batch) expired rows are left and every other row is untouched |
| ReplayNamespace.RunningDigest.AppendNamespacePart | src/aeon/recall_v2.rs:539-542 | eight bytes of length and the value are fed |
| ReplayNamespace.RunningDigest.AppendOptionalNamespacePart | src/aeon/recall_v2.rs:544-552 | a present value is tagged 1 and an absent one is the tag 0 |
| ReplayNamespace.DeriveReplayNamespace | src/aeon/recall_v2.rs:516-537 | the namespace is the digest of the whole framed input |
| ReplayNamespace.NamespaceInputInjective | src/aeon/recall_v2.rs:516-552 | for lengths below 2^64 the hashed bytes determine key fingerprint, tenant and optional workspace |
| ReplayNamespace.NamespaceReadsBack | src/aeon/recall_v2.rs:516-552 | the hashed bytes read back as the five fixed parts, fingerprint and tenant in this order, and a tagged workspace |
| RecallVerifier.VerifySignature | src/aeon/recall_v2.rs:423-454 | decoding and checking in the code's order give exactly the specified error |
| RecallVerifier.VerifyJson | src/aeon/recall_v2.rs:372-410 | an envelope that is not authentic, bound to the request and in time is refused with the first error in the order of the checks and changes nothing; any other is accepted exactly if its consume was fresh and was heard of |
| RecallVerifier.FirstErrorExact | src/aeon/recall_v2.rs:372-386 | for each error, exactly which envelopes it is reported for: authenticity first, then the request, then the time |
| RecallVerifier.ContextErrorExact | src/aeon/recall_v2.rs:456-514 | a mismatch is reported exactly for the first component, in the order of the checks, that differs from the request |
| RecallVerifier.ClaimExact | src/aeon/recall_v2.rs:202-207 | two envelopes make one claim exactly if they agree on physical key, tenant, workspace, nonce and expiry; the key id plays no part |
| RecallVerifier.PayloadAcceptedAtMostOnce | src/aeon/recall_v2.rs:388-403 | over any run a signed payload is accepted at most once, under whichever alias of its key |
| TimelineChain.VerifyTimelineChain | src/aeon.rs:1468-1480 | accepts exactly the chained lists and otherwise names the first event that breaks the chain |
| TimelineChain.BodyTellsEvent | src/aeon.rs:1440-1466 | the type of a body tells which event it reports, and snapshot and capsule are named exactly by their own events |
| TimelineChain.ChainContinues | src/aeon.rs:1185-1218 | linking any bodies behind the tip of a chain gives a chain |
| TimelineChain.LinkInRounds | src/aeon.rs:1185-1218 | linking in two rounds is linking in one, so deliveries and replays compose |
| TimelineChain.LastEventFixesChain | src/aeon.rs:1468-1480 | with an injective digest two verified chains with equal last events are equal, length included |
| TimelineChain.IdentityExact | src/aeon.rs:1392-1408 | on fields without the separator the identity is the tuple of fields, up to absent against empty |
| TimelineChain.IdentityByOrigin | src/aeon.rs:1392-1408 | whatever agent and session hold, equal identities mean that agent and session joined are the same text and that type, snapshot and capsule agree |
| TimelineChain.SameIdentityExact | src/aeon.rs:1427-1466 | two reports share an identity exactly if agent and session joined are the same text and the events are equal or are both denials |
| TimelineChain.OriginsExact | src/aeon.rs:1399-1402 | agent and session joined are the same text exactly if both agree, or one agent holds a separator at which the other agent ends and its session begins |
| TimelineChain.SessionsStayApart | src/aeon.rs:1392-1408 | for one agent, or agents without the separator, identities never mix up two agents or two sessions, whatever the sessions hold |
| TimelineChain.SeparatorCollision | src/aeon.rs:1398-1408 | an agent id that holds the separator shares the identity of every event with the agent id before the separator and a longer session |
| TimelineService.PostEventWithRetry | src/aeon.rs:1220-1254 | a post is acknowledged exactly if its attempts lead to a success before the first that ends the loop |
| TimelineService.AcknowledgedExactly | src/aeon.rs:1232-1251 | a post is acknowledged exactly if some attempt has a status from 200 to 299 and every one before it a server error or no answer |
| TimelineService.CopiesExact | src/aeon.rs:1232-1251 | the service holds as many copies as attempts were made and stored |
| TimelineService.AcknowledgedIsChained | src/aeon.rs:1185-1218 | over any posts the acknowledged events are their bodies linked in order, a verified chain, and the sink has its tip |
| TimelineService.HeldChainExact | src/aeon.rs:1220-1254 | over any posts what the service holds is a verified chain exactly if no event was stored twice and none after one stored unknown to the sink |
| TimelineSpool.OneRecordPerId | src/aeon.rs:1090-1183 | over any sequence of offline attempts, whole or cut short, reading the file or not, the spool has every written id in first-seen order, and one record per id exactly if no attempt that could not read the file had an id from before it |
| TimelineSpool.UnreadAppend | src/aeon.rs:1413-1425 | an append that could not read the file leaves distinct ids exactly if they were distinct and it brought none of them |
| TimelineSpool.UnreadIsAsGood | src/aeon.rs:1413-1425 | it leaves the file that a reading append would have left exactly if it brought no id that is in the file |
| TimelineSpool.AppendKeepsFirstSeen | src/aeon.rs:1090-1183 | an append continues the first-seen order |
| TimelineSpool.AppendExact | src/aeon.rs:1140-1168 | an append leaves what is in the file and adds, as they are and in order, the records whose id is neither there nor earlier in the batch |
| TimelineSpool.RespoolIsNoOp | src/aeon.rs:1090-1183 | spooling a stored batch again changes nothing, whatever the clock says, exactly if the file can be read or the batch is empty |
| TimelineSpool.RetryCompletes | src/aeon.rs:1090-1183 | a batch cut short and retried ends in the file of an unbroken delivery exactly if the retry can read the file or meets none of its ids there |
| TimelineSpool.ReportConservesLines | src/aeon.rs:1029-1087 | delivered, failed and skipped add up to the nonblank lines |
| TimelineSpool.PostedOnce | src/aeon.rs:1029-1087 | no id is posted twice in one pass |
| TimelineSpool.DroppedLineHasCopy | src/aeon.rs:1029-1087 | every dropped duplicate has an earlier copy that was delivered or retained |
| TimelineSpool.DeliveredComesBack | src/aeon.rs:1029-1087 | after a pass a delivered event is still in the file exactly if the file was not opened for rewriting or another copy is older than `since`; a rewrite cut short leaves it only in the latter case |
| TimelineReplay.PassExact | src/aeon.rs:1029-1087 | a pass posts exactly the first copy of every wanted event, in order; keeps exactly what cannot be parsed, is not wanted, or was posted without being acknowledged; and counts acknowledged posts as delivered |
| TimelineReplay.NothingLost | src/aeon.rs:1070-1076 | a wanted event of which no post was acknowledged in the pass has a line in the rewritten file |
| TimelineSink.ReadSpooledEventIds | src/aeon.rs:1413-1425 | the ids read are exactly those in the file, or none if it cannot be read |
| TimelineSink.Sink.constructor | src/aeon.rs:1185-1196 | a new sink has posted nothing and has no tip |
| TimelineSink.Sink.PostLinked | src/aeon.rs:1185-1254 | one post is added to the history with its outcome, and the tip moves exactly if it was acknowledged |
| TimelineSink.Sink.PostAll | src/aeon.rs:983-992 | an online delivery posts every body in order, and says whether all were acknowledged |
| TimelineSink.Sink.Deliver | src/aeon.rs:965-1004 | status, spool and posts of a delivery in every mode |
| TimelineSink.Sink.SpoolEvents | src/aeon.rs:1090-1183 | the file gains the records whose ids are not known, in order, up to the first write that fails; known are those read, if the file can be read, and those written |
| TimelineSink.Sink.ReplayLine | src/aeon.rs:1037-1076 | one line is given its fate, and exactly a line that is delivered or failed is posted, once; `FateExact` says which fate that is |
| TimelineSink.Sink.PassOver | src/aeon.rs:1029-1087 | report, retained lines and posts are those that lines and attempts prescribe: a posted line is retained exactly if it was not acknowledged |
| TimelineSink.Sink.ReplaySpooledEvents | src/aeon.rs:1006-1088 | a replay posts the first copies and leaves exactly the lines that stay, verbatim and in order, the old file if it cannot be opened for rewriting, or a part of those lines if the write fails |
| TimelineSink.Sink.ServiceChain | src/aeon.rs:983-992 | after any sequence of deliveries and replays of one sink the acknowledged events are a verified chain, and what the service holds is one exactly if it was stored in order |
| TimelineSink.AllWritten | src/aeon.rs:1140-1168 | an append writes every record exactly if their ids differ and none is in the file |
| TimelineSink.BatchKeptWhole | src/aeon.rs:1090-1183 | an offline batch is kept whole exactly if no event clashes with another in it or, where the file can be read, with one it holds from an earlier delivery |
| TimelineSink.OfflineThenReplay | src/aeon.rs:983-1088 | delivering a batch without clashes offline and replaying it posts exactly what delivering it online would have posted, and what is not acknowledged stays in the file |
| TenantRegistry.VisibleSnapshotAge | src/bin/nexus_mcp.rs:2798-2823 | over every run of the loop a nonempty visible snapshot is younger than the staleness limit plus one interval |
| TenantRegistry.AgeNeverExceeds | src/bin/nexus_mcp.rs:2528-2542 | over every run no visible snapshot is older than `MaxAge` |
| TenantRegistry.MaxAgeAttained | src/bin/nexus_mcp.rs:2798-2823 | in every configuration some run shows a snapshot of exactly that age |
| TenantRegistry.MaxAgeReachesLimit | src/bin/nexus_mcp.rs:2576-2597 | that age is at least the limit, and one unit short of limit plus interval exactly if a load may take as long as the best offset |
| TenantRegistry.OneOfTwoInstalls | src/bin/nexus_mcp.rs:2724-2754 | if both loads would finish within the timeout, one of two consecutive refreshes installs its snapshot, from every state |
| TenantRegistry.RefreshExact | src/bin/nexus_mcp.rs:2724-2790 | for every load: what is installed, when the refresh ends, and that otherwise the snapshot is left alone until it reaches the limit and emptied then |
| TenantRegistry.KeptUntilLimit | src/bin/nexus_mcp.rs:2798-2823 | over every run in which nothing is loaded a snapshot is kept as it is until it reaches the limit, and is gone from then on |
| TenantRegistry.InstalledIsKept | src/bin/nexus_mcp.rs:2798-2823 | a run ends with the snapshot installed last, unless it has reached the limit |
| TenantRegistry.TicksStayPut | src/bin/nexus_mcp.rs:2799-2804 | however long refreshes take, tick k stays k intervals after the first |
| TenantRegistry.BudgetNeverZero | src/bin/nexus_mcp.rs:2757-2783 | the budget is positive, at most the timeout, and does not outlast a fresh snapshot |
| TenantRegistry.Registry.RefreshFromSnapshot | src/bin/nexus_mcp.rs:2521-2526 | from its installation on a staleness check keeps the snapshot until it reaches the limit, and empties it then |
| TenantRegistry.Registry.ClearIfStale | src/bin/nexus_mcp.rs:2528-2542 | a stale snapshot becomes the empty one without a timestamp; a fresh one stays |
| TenantRegistry.Registry.RefreshWithLoader | src/bin/nexus_mcp.rs:2724-2754 | a load in time is installed under the time it ended; an error, a panic or a timeout keeps the snapshot if it is younger than the limit and empties it if not |
| TenantRegistry.Registry.RefreshLoop | src/bin/nexus_mcp.rs:2798-2823 | the loop computes the run the bounds are about |
| RateLimits.FixedWindowBound | src/bin/nexus_mcp.rs:2873-2900 | under limits that may differ from request to request any half-open minute admits at most 2 * top - 1 requests, and at most 2 * top if a limit is zero, with top the highest limit |
| RateLimits.FixedWindowBoundAttained | src/bin/nexus_mcp.rs:2890-2893 | for every positive limit some sequence of requests reaches each of the two bounds |
| RateLimits.WindowCountExact | src/bin/nexus_mcp.rs:2895-2899 | the counter is the number of requests admitted in the window and at most the highest limit |
| RateLimits.BucketExact | src/bin/nexus_mcp.rs:1074-1083 | the bucket is exactly the calls admitted in the last minute, and a call is refused exactly if there are ten |
| RateLimits.SlidingWindowBound | src/bin/nexus_mcp.rs:1063-1084 | any half-open minute admits at most ten recalls |
| RateLimits.Limiters.RateLimitBlocked | src/bin/nexus_mcp.rs:2873-2900 | one request moves its own tenant's window by one step of the run |
| RateLimits.Limiters.RetainRecent | src/bin/nexus_mcp.rs:1075-1075 | exactly the times less than a minute old are kept, in order |
| RateLimits.RecentExact | src/bin/nexus_mcp.rs:1075-1075 | the times kept are those less than sixty seconds old, in order |
| RateLimits.Limiters.RecallLimited | src/bin/nexus_mcp.rs:1063-1084 | one recall moves its own agent's bucket by one step of the run |
| HypervisorPool.Conservation | src/daemon/pool.rs:50-95 | in every interleaving, cancelled calls included, no instance is lost or lent twice, and instances and permits add up to the size |
| HypervisorPool.FirstInFirstOut | src/daemon/pool.rs:50-95 | in every interleaving instances are lent in the order in which they were idle or put back |
| HypervisorPool.GuardKeepsInstance | src/daemon/pool.rs:70-95 | a guard has the instance that was popped for it, and it is that one which is put back |
| HypervisorPool.IdleBalance | src/daemon/pool.rs:84-95 | idle instances and permits differ by exactly the overdue and the early returns |
| HypervisorPool.PopPanicsExactly | src/daemon/pool.rs:57-62 | a call with a permit finds the queue empty exactly if the overdue returns are as many as the permits out of guards plus the early returns |
| HypervisorPool.PopNeverPanicsInOrder | src/daemon/pool.rs:60-60 | if every push precedes the release of its permit, a pop always succeeds |
| HypervisorPool.PanicReachable | src/daemon/pool.rs:84-95 | in a pool of any size some run makes the pop fail |
| HypervisorPool.QuietPoolIsFull | src/daemon/pool.rs:84-95 | once all guards are gone and all returns have run, the pool is full again |
| HypervisorPool.HypervisorPool.constructor | src/daemon/pool.rs:36-46 | a new pool has every instance idle and every permit free |
| HypervisorPool.HypervisorPool.Acquire | src/daemon/pool.rs:50-67 | a permit and an instance are taken, or neither if the call is cancelled while it waits; a panic needs a permit that was released before its return |
| HypervisorPool.HypervisorPool.DropGuard | src/daemon/pool.rs:84-95 | the guard becomes a pending return and its permit is on its way back |
| ProfileText.StripComment | src/profile/mod.rs:669-699 | the line is cut at the first `#` outside quotes |
| ProfileText.FindUnquotedEquals | src/profile/mod.rs:701-718 | the first `=` outside quotes is found, if there is one |
| ProfileText.FirstBareExact | src/profile/mod.rs:669-718 | what both scanners find is outside quotes and nothing before it is |
| ProfileText.ParseBasicString | src/profile/mod.rs:732-767 | the loop over escapes computes the specified value or error |
| ProfileText.BasicStringExact | src/profile/mod.rs:732-767 | a text is accepted with a value exactly if it is a well formed inside for that value, a quote and blanks |
| ProfileText.BodyStaysQuoted | src/profile/mod.rs:669-767 | the value parser and both scanners end a basic string at the same character |
| ProfileText.LiteralStaysQuoted | src/profile/mod.rs:669-718 | both scanners end a literal string at its next single quote, as the value parser does |
| ProfileText.StringValueExact | src/profile/mod.rs:720-781 | a value is read as a text exactly if it is a basic string that denotes it or a literal string that is it, with blanks behind |
| ProfileText.LiteralPasses | src/profile/mod.rs:669-718 | a whole literal string begins and ends outside quotes for both scanners |
| ProfileText.OtherEscapesRefused | src/profile/mod.rs:732-767 | an escape other than the five is an error that names it |
| ProfileText.ParseStringValue | src/profile/mod.rs:720-730 | the first character selects the reader, whose value or error is returned |
| ProfileText.ParseStringArray | src/profile/mod.rs:399-420 | the elements up to the first fault are read in order |
| ProfileText.StringArrayExact | src/profile/mod.rs:395-420 | a value is read as a list exactly if it is brackets around nothing, or around strings without commas that are separated by commas |
| ProfileManifest.McpSwitchSetAlone | src/profile/mod.rs:338-379 | a switch is accepted exactly with a boolean, and sets itself and no other field |
| ProfileManifest.McpListSetAlone | src/profile/mod.rs:323-384 | besides the switches only the allowlist is accepted, with a list of strings, and it changes no switch |
| ProfileManifest.ExecutionFieldSetAlone | src/profile/mod.rs:237-266 | a list of directories or the boolean sets its own field, every other key or value is refused |
| ProfileManifest.TakeLine | src/profile/mod.rs:451-547 | one line moves the raw profile, the open section and the errors as its statement says; the open entry always exists |
| ProfileManifest.FaultyExactly | src/profile/mod.rs:480-505 | a line is no assignment exactly if it has no equals sign outside quotes, and has no key exactly if only blanks precede the first one |
| ProfileManifest.ParseProfile | src/profile/mod.rs:447-551 | parsing is the walk over the statements of the lines |
| ProfileManifest.JudgeExact | src/profile/mod.rs:564-667 | an entry grants a capability exactly if its type spells it and its trimmed nonblank value is the capability's |
| ProfileManifest.UnknownExactly | src/profile/mod.rs:591-616 | a type is complained about exactly if it spells no capability |
| ProfileManifest.MissingExactly | src/profile/mod.rs:621-667 | a missing value is complained about under the line of its entry, a blank one under its own |
| ProfileManifest.EntriesAreConserved | src/profile/mod.rs:564-616 | every entry is granted or complained about, never both |
| ProfileManifest.GrantedInOrder | src/profile/mod.rs:562-618 | without complaints the capabilities are the entries', one for one and in order |
| ProfileManifest.ValidateCapabilities | src/profile/mod.rs:553-619 | computes the granted capabilities and appends the complaints, or the complaint that there are no entries |
| ProfileManifest.LoadAndValidate | src/profile/mod.rs:185-213 | a manifest is returned exactly if reading, parsing and validation have no error, and otherwise the errors of the parser followed by those of validation |
| ProfileManifest.CapabilitiesAreConfined | src/profile/mod.rs:591-603 | whatever the text, a manifest has one capability per `[[capabilities]]` line, at least one, and never a sentinel or a blank or padded value |
| ProfileManifest.SwitchesFailClosed | src/profile/mod.rs:55-89 | without a line `[mcp]` the six switches are off and every tool passes the allowlist |
| ProfileMeaning.LoadedExactly | src/profile/mod.rs:185-320 | a text loads as a manifest exactly if every line is accepted where it stands, there is a capability table, and name, capabilities and policies are what the last assignments say: a switch is on exactly if the last assignment to it is `true`, and off if there is none |
| ProfileMeaning.LastValueExact | src/profile/mod.rs:451-547 | the value that counts is that of an assignment in the table after which there is no other |
| ProfileMeaning.FaultsReported | src/profile/mod.rs:447-551 | every line that is not accepted where it stands is reported once, with its number and fault and in order, and no other |
| ProfileMeaning.ErrorNamesLine | src/profile/mod.rs:451-452 | every error of the parser names a line of the text, counted from one, and what is wrong there |
| ProfileRendering.AssignmentRoundTrip | src/profile/mod.rs:669-767 | for every plain key, every value and every layout, the escaped assignment with a comment gives back key and value |
| ProfileRendering.ArrayReadsExactly | src/profile/mod.rs:395-420 | a written array is read back if no item has a comma and is refused otherwise |
| ProfileRendering.LinesOfText | src/profile/mod.rs:451-451 | lines written with either line ending are the lines read |
| ProfileRoundTrip.StatementsRoundTrip | src/profile/mod.rs:447-619 | the statements of a manifest are read back exactly if it is expressible |
| ProfileRoundTrip.ManifestRoundTrip | src/profile/mod.rs:185-213 | a whole manifest as text, with any accepted type spellings, layout, comments and blank lines, loads as itself exactly if it is expressible |
| ProfileReach.LoadedIsExpressible | src/profile/mod.rs:185-213 | whatever the text, what is loaded from it is expressible |
| ProfileReach.ReachableExactly | src/profile/mod.rs:185-213 | a manifest can be loaded from some text exactly if it is expressible |
| InstinctStore.Laplace | src/instinct/mod.rs:80-86 | confidence is strictly between 0 and 1 |
| InstinctStore.RecordedIsCounted | src/instinct/mod.rs:80-96 | an outcome adds one to its own count, below the cap, and nothing to the other; the confidence is that of the new counts, never lower after a success and never higher after a failure |
| InstinctStore.ImportExact | src/instinct/mod.rs:313-340 | after an import every bucket has what it had, unchanged, and behind it only instincts of the batch as they came, with everything the batch suggests; the touched categories are those that grew |
| InstinctStore.ReimportAddsNothing | src/instinct/mod.rs:302-340 | importing an export of the store adds nothing and merges everything |
| InstinctStore.ExportRestores | src/instinct/mod.rs:302-340 | importing an export into an empty store restores it, in whatever order the categories were written |
| InstinctStore.ImportInRounds | src/instinct/mod.rs:313-340 | importing in two rounds is importing in one, counts and touched categories included |
| InstinctPersistence.InvOverRun | src/instinct/mod.rs:199-271 | over every interleaving a category whose file differs from the cache has a write pending or given up or shares its file, and triples stay unique |
| InstinctPersistence.ScoredOverRun | src/instinct/mod.rs:80-96 | over every run whose imports are scored the confidence of every instinct is the smoothed rate of its counts |
| InstinctPersistence.FilesAreLastWrites | src/instinct/mod.rs:342-354 | over every run a file holds what its category had when it was last written, and nothing else changes it |
| InstinctPersistence.RegisterExact | src/instinct/mod.rs:199-227 | registering finds the instinct that suggests the same, or adds one without a history behind the others |
| InstinctPersistence.QuietStoreReopens | src/instinct/mod.rs:129-155 | a store without pending or given up writes reopens to the same contents, in whatever order its directory is listed, exactly if every category has a file of its own that a scan finds |
| InstinctPersistence.SlashFreeCategories | src/instinct/mod.rs:342-354 | for categories without slashes that is so exactly if none is empty |
| InstinctPersistence.PlainNames | src/instinct/mod.rs:348-348 | a category without slashes is scanned exactly if it is not empty, and shares its file with no other such |
| InstinctPersistence.OpenFailsExactly | src/instinct/mod.rs:139-145 | opening fails exactly if a file with the extension cannot be read or parsed |
| InstinctPersistence.OpenedExact | src/instinct/mod.rs:146-148 | otherwise a category is loaded with exactly the bucket of the last file listed for it |
| InstinctPersistence.Open | src/instinct/mod.rs:129-155 | the loop computes what the listing prescribes, failures included |
| InstinctPersistence.RankedExact | src/instinct/mod.rs:176-194 | the ranking is a permutation of the matching instincts, most confident first, stable among equals |
| InstinctPersistence.RankedMatches | src/instinct/mod.rs:98-103 | the ranking has exactly the instincts of the bucket whose pattern is `*` or the operation |
| InstinctPersistence.Query | src/instinct/mod.rs:176-194 | a query returns that ranking |
| InstinctPersistence.Store.RegisterInstinct | src/instinct/mod.rs:199-227 | the bucket is as it was or has one new instinct without a history, and the id returned belongs to an instinct with that pattern and description when the lock is let go |
| InstinctPersistence.Store.RecordOutcome | src/instinct/mod.rs:232-271 | the outcome is counted for the first instinct with the id in one category that has it, and nothing else in the cache changes; or none has it |
| InstinctPersistence.Store.Import | src/instinct/mod.rs:313-340 | added and merged add up to the batch, and exactly the categories that grew are to be written |
| InstinctPersistence.Store.PersistAll | src/instinct/mod.rs:336-354 | nothing is left pending for the call; it succeeds only if it wrote every touched category, and fails only if one of its writes failed |
| InstinctPersistence.ImportBatch | src/instinct/mod.rs:316-335 | the loop computes the import of the batch |
| PinnedKeys.CheckRecord | src/aeon/recall_v2_config.rs:569-591 | the first thing wrong with a record, in the code's order, or its decoded key |
| PinnedKeys.RecordExact | src/aeon/recall_v2_config.rs:569-591 | a record is good exactly if its key is sixty-four hexadecimal digits for a valid point and its id is the one derived from that key, and which fault is reported otherwise |
| PinnedKeys.ScanRecords | src/aeon/recall_v2_config.rs:251-311 | the first fault in document order, or both id lists and the bundle; a duplicate public key is never the fault |
| PinnedKeys.FromJson | src/aeon/recall_v2_config.rs:251-311 | every accepted document gives a valid representation of its records; the duplicate-key refusal is unreachable |
| PinnedKeys.RepresentationValid | src/aeon/recall_v2_config.rs:343-376 | for every id the sorted lists, the bundle and the records agree, and the counts add up to the records |
| PinnedKeys.BundleHasKeys | src/aeon/recall_v2_config.rs:251-311 | the bundle maps each record's id to the key it names |
| PinnedKeys.ContainsKey | src/aeon/recall_v2_config.rs:368-376 | two binary searches find an id exactly if the bundle has it |
| CanonicalJson.CanonicalFormExact | src/proof/canonical.rs:19-34 | two values have one canonical form exactly if they differ only in key order, at any depth |
| Ordering.LessExact | src/proof/canonical.rs:30-30 | a key is less than another exactly if, behind a common beginning, it ends or has the smaller character |
| CanonicalJson.OrderedIsCanonical | src/proof/canonical.rs:19-34 | the canonical form is exactly the well formed value, equal up to key order, in which at every depth each key precedes the next |
| CanonicalJson.SortedKeysInOrder | src/proof/canonical.rs:19-34 | in a canonical form each key precedes the next, at every depth |
| CanonicalJson.SortIdempotent | src/proof/canonical.rs:19-34 | sorting twice is sorting once |
| CanonicalJson.SortedIsSame | src/proof/canonical.rs:19-34 | a canonical form is the value itself up to key order |
| CanonicalJson.LookupSame | src/proof/canonical.rs:19-34 | values equal up to key order agree on every lookup along every path |
| CanonicalJson.CanonicalBytesExact | src/proof/canonical.rs:5-13 | two capsules have equal canonical bytes exactly if they agree up to key order on everything but the signature |
| CanonicalJson.CanonicalBytesOrdered | src/proof/canonical.rs:5-13 | the canonical bytes are those of the fields and a null signature written with ordered keys |
| CanonicalTree.Node.Sort | src/proof/canonical.rs:19-34 | the tree is rewritten in place into the canonical form of what it stood for, touching nothing outside it |
| CanonicalTree.Node.SortForest | src/proof/canonical.rs:22-29 | each child is sorted where it is and no child is shared |
| CanonicalTree.Node.SortKeys | src/proof/canonical.rs:30-30 | the members of an object are put in key order, each key preceding the next and each value staying with its key |
| CanonicalTree.CanonicalBytesInPlace | src/proof/canonical.rs:5-13 | clearing the signature on a copy, sorting the tree in place and serializing gives the specified bytes, those of a value with ordered keys |
| Dsse.PaeInjective | src/proof/dsse.rs:49-59 | equal encodings imply equal type and equal payload |
| Dsse.PaeLayout | src/proof/dsse.rs:49-59 | the type stands behind its length and the payload behind its own, at the end |
| Dsse.DecimalRoundTrip | src/proof/dsse.rs:50-55 | the decimal length determines the number |
| Dsse.MostSignificantFirst | src/proof/dsse.rs:50-55 | in a decimal length the first digit counts most |
| Dsse.FirstDigit | src/proof/dsse.rs:50-55 | a decimal length has no leading zero |
| Dsse.WrapVerifies | src/proof/dsse.rs:62-75 | a wrapped capsule verifies under its key and carries the capsule's bytes |
| Dsse.AcceptedExactly | src/proof/dsse.rs:79-108 | an envelope is accepted exactly if it has the capsule type and the first signature under the key's id, in any case, has the right length and is good for type and payload |
| Dsse.AcceptedWasSigned | src/proof/dsse.rs:79-108 | an accepted envelope carries a payload that was signed under the capsule type |
| Frames.DecodeExact | src/daemon/protocol.rs:36-52 | a body is read exactly if the bytes consumed are its whole encoding and it is within the limit |
| Frames.OversizeRefused | src/daemon/protocol.rs:42-48 | a length above the limit is refused after four bytes |
| Frames.FramesReadBack | src/daemon/protocol.rs:36-72 | reading the concatenation of any written bodies gives them back and consumes exactly their bytes |
| Frames.Stream.ReadRawFrameWithLimit | src/daemon/protocol.rs:36-52 | result and new position of a read, short streams included |
| Frames.Stream.WriteRawFrame | src/daemon/protocol.rs:65-72 | a body that fits the header is appended as one frame, another is refused and nothing is written |
| Encoding.BigEndianRoundTrip | src/daemon/protocol.rs:42-42 | a length is read back from its big-endian bytes |
| Encoding.MostSignificantFirst | src/daemon/protocol.rs:42-42 | of the bytes of a length the first counts most |
| Encoding.DecodeHex | src/aeon/recall_v2.rs:437-454 | exactly the texts of the right length in lowercase digits are decoded, and encoding gives them back |
| Encoding.HexRoundTrip | src/proof/dsse.rs:110-112 | hexadecimal text is the encoding of what it decodes to |

## Left out

- ReplayDatabase.Database.PurgeExpiredBefore: rows of equal expiry are taken in any order, where the statement orders them by key, and the statement sees the table as it is when the lock is granted.
- TimelineService.HeldChainExact: what is stored keeps the order of the attempts; a copy that arrives after a later post is not modelled.
- TimelineSink.Sink.SpoolEvents: one line is written whole or not at all.
- InstinctStore.Laplace: computed in reals, not in 32-bit floating point, where a very large count rounds to 1.
- InstinctPersistence.Store.PersistAll: a failed write leaves the old file, not a part of the new one.
- InstinctPersistence.QuietStoreReopens: the directory holds no files with the extension but those a store has written.
- ProfileManifest.LoadAndValidate: paths are compared as strings, positions are character counts, and the wording of most messages is an error constructor.
- RateLimits.FixedWindowBound: request times do not go backwards.
- HypervisorPool.HypervisorPool.Acquire: the order in which waiting calls are served.
- TenantRegistry.Registry.RefreshLoop: ticks start on schedule, or at once when late; a timeout ends a load exactly when its budget is used up.
- Dsse.AcceptedWasSigned: Ed25519 and base64 are parameters with ideal properties.
- SQL and HTTP transport, connection pools and the schema inspection of the replay store: input and output without an invariant of their own.
- Structural checks of an envelope (`validate_envelope`), JSON parsing and serialization, and serialization failures: parameters, or outside the model.
- Concurrent use of one timeline sink, and an append during a replay: the code gives no order there.
- Poisoned locks, and a panic while a lock is held.
- Loading configuration from environment variables.
- Case-insensitive file systems, links between files, and reserved file names for instinct categories.
- Creation and update times of instincts, and the store's statistics.
- WebAssembly execution, snapshots, capability tokens, egress policy, recovery policies and fork-and-race: not part of this model.
