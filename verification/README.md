# Verified models of the gateway's stateful core

This project models, in Dafny 4.11, the parts of the AI gateway that carry real
state, concurrency or arithmetic, and proves properties of them that hold for
every input, every run or every interleaving. `dafny verify dfyconfig.toml`
checks everything.

| files | component |
|---|---|
| `RateLimit`, `RateLimitIdeal`, `RateLimitSafety`, `RateLimitSpans`, `RateLimitReservations`, `RateLimitAdmission`, `RateLimitActivity`, `RateLimiterHeap` | the in-memory sliding-window rate limiter with idle-key eviction and reservations |
| `WorkerPool`, `WorkerPoolRuns`, `ChannelHealth` | the bounded worker pool of the channel tests, and what one test decides |
| `ModelNames`, `ModelNamesOrder`, `UpstreamUpdate`, `UpstreamProtocol`, `UpstreamSchedule`, `UpstreamTask`, `UpstreamApplyAll`, `UpstreamReports` | reconciling channel models with their upstream: detect, stage, apply, and the scans over all channels |
| `MultiKey`, `MultiKeyText`, `MultiKeyFacts`, `MultiKeyActions`, `MultiKeyExact`, `MultiKeyPlain`, `MultiKeyChannel` | channels with several keys and the actions on them |
| `EmailDelivery`, `EmailPublish`, `EmailDecisions` | one email delivery, and the compare-and-swap publisher of configurations |
| `OpusScanner` | the Ogg/Opus duration scanner |
| `BodyStorage`, `BodyStorageObjects`, `BodyStorageCursor`, `StorageCounters` | request bodies in memory or on disk, and the usage counters |
| `QuotaMath`, `QuotaMeaning` | quota conversions and the charge of a channel test |
| `Basics`, `Counting`, `Text` | shared types and helpers |

How the code is rendered:

- Objects updated in place are classes (`RequestQueue`, `Limiter`,
  `RateLimitReservation`, `ChannelRecord`, `StoredChannel`, `SliceReader`,
  `MemoryStorage`, `File`, `DiskStorage`). Loops are methods with loops. Each is proved equal to
  a function on values, and the lemmas are about those functions.
- Goroutines, the atomic reference of the email configuration and the atomic
  counters are transition systems: one step is one rendezvous, one atomic
  operation or one local action, and lemmas range over all legal step
  sequences.
- The clock is one nondecreasing count of nanoseconds and a Unix timestamp is
  its floor in seconds. Network answers, upstream model lists, regular
  expressions, JSON array parsing and floating-point rounding are parameters.
- The worker's test function is any function with a consistent summary; after a
  cancellation a running test may end with any consistent summary.

## What the code does not promise after all

Some plausible properties are false of the code. Each has an input that shows
it and the exact condition under which the property holds.

- Evicting idle keys is invisible exactly when eviction is off or no key's
  duration is longer than the key expiration
  (`RateLimitSafety.EvictionInvisibleIff`), and the limit on completions and
  reservations holds under exactly the same condition
  (`RateLimitReservations.ReservationsBoundedIff`). The comment at
  `common/constants.go:210-211` asks for this; nothing enforces it.
- Because timestamps are whole seconds and idle keys expire, "at most max per
  duration" holds for spans of real time exactly up to `duration - 1` seconds
  and one nanosecond, or up to the key expiration if that is shorter
  (`RateLimitSpans.SpansBoundedIff`). It holds for every span of `duration`
  whole clock seconds where keys outlive their durations
  (`RateLimitSafety.AlignedWindowBound`).
- Detecting and applying everything reaches a fixed point exactly when no
  staged name contains a comma, the separator of the stored list, and no ignore
  entry dropped with the additions was hiding another offered name
  (`UpstreamProtocol.ConvergesIff`). Where the check adds the names itself only
  the comma matters (`UpstreamProtocol.AutoConvergesIff`). Both carry over to
  the scans over all channels (`UpstreamApplyAll.ScanThenApplyAllIff`).
- Replaying an apply request is harmless exactly when no name was selected both
  ways (`UpstreamProtocol.ReplayIff`); every reachable state is of that kind.
- A key deletion leaves exactly the surviving keys exactly when they can be
  stored as lines (`MultiKeyFacts.FaithfulIff`). In particular, deleting the
  auto-disabled keys of a channel that has no others keeps all of them and
  turns them on, because saving never writes an empty key text.
- Size, ranges and the coupling of channel and keys are kept by every action
  but a deletion, and by a deletion exactly when what is left reads back as
  keys reaching every recorded time and reason and gives a channel without
  enabled keys none; if nothing is left to write, exactly when the channel was
  off for another reason (`MultiKeyExact.ActKeepsIff`, over runs
  `MultiKeyExact.RunKeepsIff`). A blank key in front is lost and breaks it
  (`MultiKeyExact.BlankKeyBreaks`). On plain keys only the bulk deletion of all
  keys does (`MultiKeyPlain.PlainRunKeepsIff`). Deleted plus remaining is the
  original number exactly when the remaining keys are counted one by one
  (`MultiKeyFacts.BulkDeleteCountsIff`).
- No interleaving ever lowers the visible email revision exactly when no
  publisher with an error carries a revision older than the initial one or than
  another publisher's (`EmailPublish.NeverLowersIff`).
- Memory and disk storage differ exactly on an empty read at the end of the
  body and on a reader used after its own Close
  (`BodyStorage.SameAnswersIff`).
- Creation from a reader keeps the whole input exactly when it fits, unless the
  limit is the largest 64-bit integer: its successor wraps and every body is
  accepted as empty (`BodyStorageObjects.WholeInputIff`). No setting in megabytes
  gives that limit, even one that wraps (`BodyStorageObjects.MegabyteLimits`).

## Model

| member | source | states |
|---|---|---|
| RateLimitWindow.RemoveExpiredSplits | common/rate-limit.go:36-53 | On a time-ordered queue the early exits drop exactly the expired entries and keep exactly the young ones, in order |
| RateLimitWindow.RemoveExpiredKeepsYoung | common/rate-limit.go:36-53 | The length left behind is the number of entries younger than the duration |
| RateLimitQueue.RequestQueue.Append | common/rate-limit.go:22-33 | The chain of nodes gains one fresh node at the end; the earlier nodes and timestamps stay |
| RateLimitQueue.RequestQueue.RemoveExpired | common/rate-limit.go:36-53 | The chain becomes a suffix of itself whose timestamps are what the window function leaves |
| RateLimitQueue.RequestQueue.Clear | common/rate-limit.go:56-60 | The chain is empty and head, tail and length agree |
| RateLimitSpec.StepKeepsShape | common/rate-limit.go:107-211 | Every locked operation keeps store and list over the same keys without repetition, ordered by last activity, with ordered windows |
| RateLimitSpec.SweepRemovesExactlyIdle | common/rate-limit.go:107-131 | Stopping at the first active key from the back still removes exactly the keys idle for the expiration |
| RateLimitIdeal.RequestRefines | common/rate-limit.go:152-166 | A request is answered, and leaves the table, as the ideal limiter that never forgets would have it |
| RateLimitIdeal.ReserveRefines | common/rate-limit.go:178-190 | The same for a reservation, and the reservation table still counts the open handles |
| RateLimitIdeal.CompleteRefines | common/rate-limit.go:194-211 | The same for a completion; a repeated one changes nothing |
| RateLimitIdeal.SweepRefines | common/rate-limit.go:107-131 | A swept key had nothing young left in its window, so forgetting it is unobservable |
| RateLimitIdeal.RunRefines | common/rate-limit.go:107-211 | Over every interleaving of requests, reservations, completions and sweeps of all keys, the answers equal the ideal limiter's, if no duration outlives an idle key |
| RateLimitSafety.EvictionInvisibleIff | common/rate-limit.go:107-166 | With a duration of its own for every key, all runs answer as without eviction if and only if eviction is off or no duration is longer than the expiration |
| RateLimitSafety.ForgettingRunReal | common/rate-limit.go:107-166 | With a longer duration, a concrete run of two requests and a sweep is answered yes, yes |
| RateLimitSafety.ForgettingRunIdeal | common/rate-limit.go:152-166 | The ideal limiter answers the same run yes, no |
| RateLimitSafety.AcceptedIsHistory | common/rate-limit.go:152-166 | The accepted requests, read off the limiter's own answers, are the ideal history |
| RateLimitSafety.AlignedWindowBound | common/rate-limit.go:152-166 | No span of duration whole seconds ever holds more than max accepted requests |
| RateLimitSpans.RunRemembers | common/rate-limit.go:107-176 | After every run, whatever the expiration, each accepted request is in its key's window or old enough to be released or forgotten with the key |
| RateLimitSpans.StraddlingRunOverflows | common/rate-limit.go:152-166 | For every key and expiration a concrete run puts max + 1 accepted requests within any span longer than duration - 1 seconds and one nanosecond |
| RateLimitSpans.ForgetfulRunOverflows | common/rate-limit.go:107-133 | For every key a concrete run with one sweep puts max + 1 accepted requests within any span longer than the expiration |
| RateLimitSpans.SpansBoundedIff | common/rate-limit.go:107-176 | For every key and expiration, spans of real time hold at most max accepted requests on all runs if and only if they are no longer than duration - 1 seconds and one nanosecond and, where keys expire, than the expiration |
| RateLimitReservations.CompletedIsHistory | common/rate-limit.go:192-211 | The readings at which open handles completed with success are the history of the limiter that never forgets |
| RateLimitReservations.ReservationBound | common/rate-limit.go:168-211 | For every interleaving of Reserve, repeated Complete and sweeps: the successful completions younger than the duration plus the open handles never exceed max; the table equals the number of open handles and has no zero entry |
| RateLimitReservations.AlignedCompletionBound | common/rate-limit.go:168-211 | No span of duration whole seconds ever holds more than max successful completions |
| RateLimitReservations.ForgottenSuccessOverflows | common/rate-limit.go:107-190 | With a longer duration than the expiration, a concrete run has a young success and a reservation where one is allowed |
| RateLimitReservations.ReservationsBoundedIff | common/rate-limit.go:107-211 | Over all runs, keys and limits the bound holds if and only if eviction is off or no duration is longer than the expiration |
| RateLimitAdmission.AdmittedIff | common/rate-limit.go:152-192 | On runs mixing requests and reservations, where durations fit the expiration, one is admitted if and only if what was recorded within the duration, plus what is open for a reservation, is less than its limit |
| RateLimitAdmission.HandlesStep | common/rate-limit.go:178-211 | A granted reservation is one new open handle; a handle is closed by its first completion and by nothing else |
| RateLimitActivity.HeldIff | common/rate-limit.go:107-176 | After every run a key is held if and only if it was used, by a request or reservation granted or denied or by a successful completion, and no later sweep ticked an expiration after its last use; its activity time is the reading of that use |
| RateLimitActivity.ListedByUse | common/rate-limit.go:135-150 | The recency list is in the order of last use, also among equal readings |
| RateLimitActivity.DecisionReleases | common/rate-limit.go:152-192 | After a decision, whatever it was, the key's window holds no expired request |
| InMemoryRateLimiter.Limiter.TouchEntry | common/rate-limit.go:135-149 | The key's entry exists, is most recent and points at its own list element; store and list stay in bijection, and every key keeps a request chain of its own |
| InMemoryRateLimiter.ReleaseChain | common/rate-limit.go:36-53 | Releasing in one key's chain leaves every other key's chain and window alone |
| InMemoryRateLimiter.AppendChain | common/rate-limit.go:22-33 | The same for appending, which takes in one fresh node |
| InMemoryRateLimiter.Limiter.Request | common/rate-limit.go:152-166 | The object takes exactly the specified request step and returns its answer |
| InMemoryRateLimiter.Limiter.Reserve | common/rate-limit.go:178-190 | The object takes the specified reservation step; a granted reservation is a fresh open handle of this limiter |
| InMemoryRateLimiter.RateLimitReservation.Complete | common/rate-limit.go:194-211 | The first call takes the specified completion step; later calls change nothing |
| InMemoryRateLimiter.Limiter.DeleteExpiredEntries | common/rate-limit.go:107-131 | The loop from the back takes exactly the specified sweep step |
| ChannelHealth.HealthCheck | controller/channel-test.go:920-964 | The decisions taken one after the other give the outcome the next rows are about |
| ChannelHealth.TestedIff | controller/channel-test.go:926-931 | A test counts if and only if it was not cancelled, and the counters are consistent |
| ChannelHealth.FailedIff | controller/channel-test.go:932-949 | Failed if and only if there was an API error or, with automatic disabling on, the response took longer than the threshold; succeeded otherwise |
| ChannelHealth.DisabledIff | controller/channel-test.go:951-954 | Turned off if and only if automatic disabling is on and permitted, the channel is on, and the response was too slow or the error ban-worthy |
| ChannelHealth.EnabledIff | controller/channel-test.go:956-959 | Turned on if and only if the test succeeded without a local error, automatic enabling is on and the channel was auto-disabled |
| ChannelHealth.SlowerIsNoBetter | controller/channel-test.go:938-944 | A slower response never turns a failure into a success, keeps a channel on or turns one on |
| ChannelHealth.CycleCounts | controller/channel-test.go:966-1060 | In every interleaving of an uncancelled cycle each counter is the number of channels, present and not disabled by hand, whose own test shows it |
| WorkerPool.Normalized | setting/operation_setting/monitor_setting.go:65-73 | The concurrency from 1 to 32 nearest to the one asked for |
| WorkerPoolRuns.RunInv | controller/channel-test.go:969-1057 | The pool's invariant holds after every legal step sequence, cancelled or not |
| WorkerPoolRuns.PoolSafety | controller/channel-test.go:969-1057 | In every reachable state nobody sends on a closed channel, at most the configured number of tests run, no channel runs twice, progress is 0, 1, 2, ... and the counters are consistent |
| WorkerPoolRuns.CancelledRun | controller/channel-test.go:1000-1060 | After a cancellation no further test starts and no further progress is reported |
| WorkerPoolRuns.ConcurrencyReached | controller/channel-test.go:985-1012 | With enough channels some run has as many tests in flight as the setting allows |
| WorkerPoolRuns.StepDecreases | controller/channel-test.go:969-1057 | Every step of every participant lowers one measure |
| WorkerPoolRuns.RunsAreBounded | controller/channel-test.go:969-1057 | No run is longer than seven steps a channel, one a worker and four more |
| WorkerPoolRuns.NeverStuck | controller/channel-test.go:969-1057 | Until the reducer has returned and all goroutines have ended, some step other than cancellation is enabled |
| WorkerPoolRuns.StuckMeansFinished | controller/channel-test.go:969-1057 | A run that cannot go on has returned and left no goroutine behind |
| WorkerPoolRuns.SumAnyOrder | controller/channel-test.go:1038-1056 | The reduction does not depend on the order in which results arrive |
| WorkerPoolRuns.UncancelledResult | controller/channel-test.go:969-1057 | Without cancellation the summary is the sum over the non-nil, not manually disabled channels, each of which ran exactly once, and progress is 0, 1, ..., total without gaps |
| ModelNames.NormalizeFacts | controller/channel_upstream_update.go:101-106 | Exactly the nonblank trimmed names, each once |
| ModelNames.NormalizeId | controller/channel_upstream_update.go:101-106 | Normalizing twice is normalizing once |
| ModelNamesOrder.NormalizeOrder | controller/channel_upstream_update.go:100-105 | Names come in the order of their first occurrence |
| ModelNamesOrder.FilterOrder | controller/channel_upstream_update.go:123-144 | Every selection keeps the order of the list |
| ModelNames.MergeFacts | controller/channel_upstream_update.go:108-122 | The base stays in front and exactly the missing names follow |
| ModelNames.MergeModelNames | controller/channel_upstream_update.go:108-122 | The loop over the seen set computes the merge |
| ModelNames.MinusFacts | controller/channel_upstream_update.go:124-133 | Subtraction keeps exactly the names not taken away, in order, once |
| ModelNames.CommonFacts | controller/channel_upstream_update.go:135-144 | Intersection keeps exactly the shared names, in order, once |
| UpstreamProtocol.SelectedFacts | controller/channel_upstream_update.go:146-151 | Applying a selection without overlap gives (old or added) and not removed |
| UpstreamUpdate.PendingAddsFacts | controller/channel_upstream_update.go:180-239 | Staged additions are exactly the offered names that are not local, not a mapping target and not ignored |
| UpstreamUpdate.PendingRemovesFacts | controller/channel_upstream_update.go:180-239 | Staged removals are exactly the local names that are neither redirected nor offered |
| UpstreamUpdate.ApplyFacts | controller/channel_upstream_update.go:958-1006 | What a request adds and removes, and what stays staged, name by name |
| UpstreamTask.ChannelRecord.CheckAndPersist | controller/channel_upstream_update.go:513-560 | The record becomes what one check makes of it, with its counts and error |
| UpstreamTask.ChannelRecord.ApplyUpdates | controller/channel_upstream_update.go:958-1006 | The record becomes what one apply makes of it, with the lists returned |
| UpstreamProtocol.StoredRoundTrip | model/channel.go:296-301 | Normalized names without a comma come back unchanged from the stored text |
| UpstreamProtocol.SecondDetection | controller/channel_upstream_update.go:180-239 | After applying everything, what is offered again is exactly what lost the ignore entry hiding it |
| UpstreamProtocol.ConvergesIff | controller/channel_upstream_update.go:958-1006 | A second detection stages nothing if and only if no staged name has a comma and no dropped ignore entry was hiding an offered name |
| UpstreamProtocol.AutoConvergesIff | controller/channel_upstream_update.go:513-560 | After a check that adds by itself and an apply of the staged removals, a second detection stages nothing if and only if no added name has a comma; without the setting, if and only if there was nothing to add |
| UpstreamProtocol.PlainNamesConverge | controller/channel_upstream_update.go:180-239 | Names with neither comma nor pattern prefix always converge |
| UpstreamProtocol.CommaNeverSettles | controller/channel_upstream_update.go:180-239 | The upstream name "a,b" is offered again after being applied |
| UpstreamProtocol.UnmaskedNameComesBack | controller/channel_upstream_update.go:180-239 | Adding a model named like the ignore pattern "regex:^foo" drops the pattern, and "foo" is offered next time |
| UpstreamProtocol.IgnoredAfterApply | controller/channel_upstream_update.go:971-993 | The ignore list is what was or is now ignored, without what was just added |
| UpstreamProtocol.ApplyPartitions | controller/channel_upstream_update.go:971-993 | Every staged addition ends up in exactly one of added, ignored and remaining |
| UpstreamProtocol.ReplaySelects | controller/channel_upstream_update.go:958-1006 | A replay adds and ignores nothing and removes exactly the names selected both ways the first time |
| UpstreamProtocol.ReplayIff | controller/channel_upstream_update.go:958-1006 | A replay changes neither models, ignore list nor staged lists if and only if no staged name was selected both ways |
| UpstreamProtocol.OverlapReplayChanges | controller/channel_upstream_update.go:958-1006 | With the name "a" staged and selected both ways, the replay removes what the first apply added |
| UpstreamProtocol.NeverStagedBothWays | controller/channel_upstream_update.go:513-560 | Over every sequence of checks, automatic and manual applies and edits, the two staged lists are disjoint |
| UpstreamProtocol.ReplayIsHarmless | controller/channel_upstream_update.go:958-1006 | Hence replaying an apply changes nothing in every reachable state |
| UpstreamProtocol.CountedOnce | controller/channel_upstream_update.go:537-549 | In a forced check staged plus automatically added is the number of pending additions |
| UpstreamSchedule.CheckTakesEffectIff | controller/channel_upstream_update.go:513-525 | A check that is forced, is the first, or comes at least the interval after the last does what a forced one does; any other changes and reports nothing |
| UpstreamSchedule.FailedFetch | controller/channel_upstream_update.go:527-534 | A failed fetch records the time, reports the failure and leaves models and lists alone |
| UpstreamSchedule.CompletedCheck | controller/channel_upstream_update.go:536-560 | Removals are staged; additions are appended to the models where that is automatic and staged where not; nothing else changes |
| UpstreamSchedule.RunTakesEffectIff | controller/channel_upstream_update.go:513-560 | The same at every point of every run of checks, applies and edits, the last time being told from the run alone |
| UpstreamSchedule.UnforcedAreApart | controller/channel_upstream_update.go:519-525 | Over every run, an unforced check that takes effect comes at least the interval after everything that took effect before |
| UpstreamReports.EntryHides | controller/channel_upstream_update.go:215-222 | A plain ignore entry hides its own name only, a pattern exactly the names it matches |
| UpstreamReports.ApplyChangesIff | controller/channel_upstream_update.go:981-985 | Models change if and only if a name is added that was not listed or one removed that was |
| UpstreamTask.QueryResumes | controller/channel_upstream_update.go:1012-1023 | The query by last id returns exactly the next rows |
| UpstreamTask.RunTask | controller/channel_upstream_update.go:712-800 | Batch by batch every enabled channel is visited exactly once in id order, for any table size, and each total is the sum over the channels; a cancelled scan stops after a prefix |
| UpstreamTask.ForcedScanCounts | controller/channel_upstream_update.go:712-800 | A forced scan without fetch errors counts every pending addition exactly once |
| UpstreamTask.ForcedScanSucceeds | controller/channel_upstream_update.go:712-800 | And counts no failure |
| UpstreamReports.CountsMeaning | controller/channel_upstream_update.go:757-790 | What one channel adds to each total when it is switched off, skipped, failed or completed |
| UpstreamReports.TotalsAdd | controller/channel_upstream_update.go:712-800 | Each total is the sum of its own counter |
| UpstreamApplyAll.NextBatch | controller/channel_upstream_update.go:1012-1023 | The next rows by id, fewer than a batch only at the end of the table |
| UpstreamApplyAll.ApplyAll | controller/channel_upstream_update.go:1025-1087 | Batch by batch every enabled channel is dealt with exactly once, and the report is that of all channels in id order |
| UpstreamApplyAll.EverythingFacts | controller/channel_upstream_update.go:1054-1064 | On one channel all staged additions are applied, and all removals not staged as additions too |
| UpstreamApplyAll.ApplyAllClearsIff | controller/channel_upstream_update.go:1025-1087 | Afterwards a channel has nothing staged if and only if it had nothing, or is kept up to date, could be written and had no name staged both ways |
| UpstreamApplyAll.ReachableClears | controller/channel_upstream_update.go:1025-1087 | Nothing stays staged on a channel in any state that checks, applies and edits lead to |
| UpstreamApplyAll.ReportCounts | controller/channel_upstream_update.go:1054-1082 | Every channel with something staged is reported once, and added plus removed is exactly what was staged on those reported as applied |
| UpstreamReports.ReportedMeaning | controller/channel_upstream_update.go:1054-1082 | What one channel adds to each part of the report, when its updates go through, go wrong or are not wanted |
| UpstreamReports.ReportSums | controller/channel_upstream_update.go:1054-1082 | Added and removed are each what was staged on the channels that went through, and the failures are the others with something staged, in id order |
| UpstreamReports.RefreshIff | controller/channel_upstream_update.go:1065-1091 | The cache is refreshed if and only if a channel that went through changed its models |
| UpstreamApplyAll.ScanThenApplyAllIff | controller/channel_upstream_update.go:1025-1087 | After a forced scan and applying all, the next detection on a channel stages nothing if and only if no addition has a comma and, unless the scan added the names, no dropped ignore entry was hiding an offered name |
| MultiKeyText.StorableRoundTrip | model/channel.go:182-204 | Storable keys are read back as they were |
| MultiKeyText.StoredKeysIff | model/channel.go:182-204 | Keys joined by line breaks are read back as they were if and only if they are storable |
| MultiKeyChannel.HasEnabledKey | controller/channel.go:91-108 | Finds out whether some key is enabled or has no recorded status |
| MultiKeyChannel.DisableEnabledKeys | controller/channel.go:1984-2032 | Disables exactly the enabled keys and counts them |
| MultiKeyChannel.WithoutKey | controller/channel.go:2034-2115 | The loop builds the re-indexed channel without one position |
| MultiKeyChannel.WithoutAutoDisabled | controller/channel.go:2117-2187 | The loop builds the re-indexed channel without the auto-disabled keys and counts them |
| MultiKeyChannel.StoredChannel.SaveUnlessUsable | controller/channel.go:110-123 | Turns off an enabled channel without an enabled key, then saves |
| MultiKeyChannel.StoredChannel.SaveRestored | controller/channel.go:125-137 | Turns on a channel disabled for lack of keys once it has one, then saves |
| MultiKeyChannel.StoredChannel.Manage | controller/channel.go:1870-2187 | Each action's row, success and reported count are the specified ones |
| MultiKeyActions.DisableKeyEffect | controller/channel.go:1870-1914 | Exactly the named key becomes disabled; every other status, time and reason is as before; a missing or foreign index is refused |
| MultiKeyActions.DisableKeyTurnsOffIff | controller/channel.go:110-123 | The channel is turned off if and only if it was on and no other key is enabled |
| MultiKeyActions.EnableKeyEffect | controller/channel.go:1916-1959 | Exactly the named key becomes enabled, without time or reason, and the channel is turned on if and only if it was off for lack of keys |
| MultiKeyActions.EnableAllEffect | controller/channel.go:1961-1983 | No status, time or reason is left and the reply counts the recorded statuses |
| MultiKeyActions.DisableAllEffect | controller/channel.go:1985-2032 | Exactly the enabled keys become disabled and are counted; none is an error; a channel that was on is turned off |
| MultiKeyActions.DeleteKeyLeaves | controller/channel.go:2034-2099 | All other keys remain in order; the last key cannot be deleted |
| MultiKeyActions.DeleteDisabledLeaves | controller/channel.go:2117-2170 | Exactly the auto-disabled keys go, in order, and are counted; none is an error |
| MultiKeyActions.DeletionRecords | controller/channel.go:2052-2170 | Survivors keep their status; a single deletion keeps every time and reason, the bulk deletion those of keys still disabled |
| MultiKeyActions.DeletionTurnsOffIff | controller/channel.go:110-123 | A deletion turns a channel off if and only if it was on and what is left reads as no enabled key |
| MultiKeyFacts.DisabledBelowFacts | controller/channel.go:1984-2032 | Disabling all keys disables the enabled ones and leaves the other statuses as they are |
| MultiKeyFacts.OthersKeep | controller/channel.go:1870-2032 | Every action but a successful deletion keeps size = number of keys, all positions in range, channel and keys coupled, and the keys |
| MultiKeyFacts.NeverOverridden | controller/channel.go:125-137 | A channel disabled by hand for its own reason stays so over every sequence of actions |
| MultiKeyFacts.StorableIsFaithful | controller/channel.go:2052-2099 | A deletion with storable survivors keeps their order, statuses, and times and reasons if disabled |
| MultiKeyFacts.FaithfulIff | controller/channel.go:2052-2170 | It does so if and only if the survivors are storable |
| MultiKeyFacts.AllAutoDisabledComeBack | model/channel.go:558-605 | Bulk deletion with all keys auto-disabled keeps all keys, turns them on, and reports them deleted |
| MultiKeyFacts.AllAutoDisabledUncouples | controller/channel.go:2117-2187 | That leaves a channel disabled for lack of keys with an enabled key |
| MultiKeyFacts.BulkDeleteCountsIff | controller/channel.go:2118-2170 | Deleted + remaining = original if and only if the remaining keys have a text and are counted in it one by one; then the count of every other status is unchanged and no auto-disabled key is left |
| MultiKeyExact.ActKeepsIff | controller/channel.go:1870-2187 | For any keys, an action keeps all invariants if and only if it is no successful deletion, or one whose remaining text reads as keys reaching every recorded time and reason, and as no more than remain if the channel lacks enabled ones; with no text, one of a channel turned off for another reason |
| MultiKeyExact.RunKeepsIff | controller/channel.go:1870-2187 | A run keeps all invariants throughout if and only if each of its actions meets that condition on the channel it finds |
| MultiKeyExact.KeepableRunKeeps | controller/channel.go:1870-2187 | Runs whose deletions leave storable keys do |
| MultiKeyExact.BlankKeyBreaks | controller/channel.go:2034-2115 | Of the keys "a", blank, "b" with a time recorded for the last, deleting the first leaves a text of one key and a time out of range |
| MultiKeyPlain.PlainKeepsIff | controller/channel.go:1870-2187 | On plain keys the condition is that the action is not a bulk deletion with all keys auto-disabled on a channel disabled for lack of keys, and the keys stay plain |
| MultiKeyPlain.PlainRunKeepsIff | controller/channel.go:1870-2187 | A run on plain keys keeps all invariants throughout if and only if it has no such deletion |
| EmailDelivery.Submit | common/email_delivery.go:167-198 | The submit stage is unknown exactly when the body was opened and no final reply came |
| EmailDelivery.Attempt | common/email_delivery.go:33-125 | What one connection does to the stages, the code and the log, and exactly when a retry is asked for |
| EmailDelivery.Deliver | common/email_delivery.go:33-125 | The report is the one given stage by stage; at most one message body and two connections; success means no bad stage and an accepted message; an error has exactly one bad stage, the right one; the code is unknown exactly when the body was opened without a final reply |
| EmailDelivery.VerdictBlamesRight | common/email_delivery.go:33-125 | The stage-by-stage report and the one stage to blame agree for every course of a delivery |
| EmailPublish.MovedSince | common/email_delivery_config.go:56-67 | A swap fails exactly when another publisher's swap succeeded since the load |
| EmailPublish.VisibleStep | common/email_delivery_config.go:56-67 | Without an error being swapped in the visible revision never decreases |
| EmailPublish.NeverLowersIff | common/email_delivery_config.go:56-67 | No step of any interleaving lowers the visible revision if and only if every failed publication's revision is at least the initial one and every other publication's |
| EmailPublish.ErrorLowersRevision | common/email_delivery_config.go:56-67 | A failed publication of revision 3 replaces the visible revision 5 |
| EmailPublish.MaximumWins | common/email_delivery_config.go:56-67 | Once all error-free publishers have returned, the visible revision is the maximum of those published and the initial one |
| EmailPublish.ErrorsAreInstalled | common/email_delivery_config.go:56-67 | A publisher with an error never gives up: once it returns its snapshot has been installed |
| EmailDecisions.GaveUpIff | common/email_delivery_config.go:56-68 | In every interleaving a publisher that has returned gave up if and only if it had no error and found a strictly newer revision at its last load |
| EmailDecisions.SoloPublish | common/email_delivery_config.go:56-68 | Left alone from any reachable state, a publisher is installed unless it is without error and outdated |
| EmailDecisions.LonePublisher | model/email_delivery_config.go:128-140 | A lone publisher is what is visible once it returns unless what was there is strictly newer; a good refresh replaces an error snapshot of its own revision |
| EmailPublish.RetriesBounded | common/email_delivery_config.go:56-67 | A publisher retries fewer times than there are publishers |
| EmailPublish.PublishersFinish | common/email_delivery_config.go:56-67 | However they interleave, n publishers take at most 2n² steps |
| EmailPublish.NeverBlocked | common/email_delivery_config.go:56-67 | A publisher that has not returned can always take a step |
| OpusScanner.OpusDuration | common/audio.go:198-256 | For every byte sequence the loop ends, hits exactly the recognised headers in order, and returns the largest granule position over 48000 |
| OpusScanner.CaptureIff | common/audio.go:221-228 | The pattern is recognised exactly where the four letters stand |
| OpusScanner.NoStraddle | common/audio.go:221-228 | A capture pattern cannot begin in junk and end in a page |
| OpusScanner.ScanPage | common/audio.go:230-251 | From a page boundary the scanner goes to the next one, whatever the body contains |
| OpusScanner.ScannerFindsPages | common/audio.go:198-256 | On any pages with junk before each and after the last it visits exactly the page boundaries and finds the largest granule position, at least zero |
| OpusScanner.ScannerCountsCutPage | common/audio.go:230-251 | A stream that breaks off inside a page, after its header, counts that page too and ends there |
| OpusScanner.BytesRoundTrip | common/audio.go:230-231 | Little-endian encoding is read back |
| OpusScanner.EncodeIsPage | common/audio.go:221-251 | Any page laid out as in section 6 of RFC 3533 is recognized and its granule position read back |
| BodyStorage.StepAlike | common/body_storage.go:62-275 | Each operation keeps the two storages alike and, telling cases apart, gives the same answer |
| BodyStorage.SameAnswersIff | common/body_storage.go:62-275 | After any operations the next answers agree if and only if it is neither an empty read at the end nor the use of a closed reader |
| BodyStorage.EmptyReadTells | common/body_storage.go:62-69 | An empty read of an empty body gives the end in memory and no bytes on disk |
| BodyStorage.ClosedReaderTells | common/body_storage.go:98-108 | A reader read after its own Close goes on in memory and refuses on disk |
| BodyStorage.ReadersIndependent | common/body_storage.go:259-275 | On both storages nothing else done, closing the storage included, moves a reader |
| BodyStorage.ReaderReplays | common/body_storage.go:98-108 | Over every run of operations, in memory and on disk, what a reader has delivered is the payload up to its cursor, without gap or repetition |
| BodyStorage.ReadProgresses | common/body_storage.go:98-108 | An open reader with payload left always delivers something |
| BodyStorageCursor.SeekLands | common/body_storage.go:71-78 | A seek lands relative to the start, the cursor or the end; a negative target is refused and moves nothing |
| BodyStorageCursor.ReadDelivers | common/body_storage.go:62-69 | A read delivers what was asked for or is left and moves behind it |
| BodyStorageCursor.ReadAtEnd | common/body_storage.go:62-69 | At or behind the end a read delivers nothing and moves nothing |
| BodyStorageCursor.BytesAreAll | common/body_storage.go:89-96 | All bytes are returned wherever the cursor is, and it stays there |
| BodyStorageCursor.NewReaderStarts | common/body_storage.go:98-108 | A new reader starts at the beginning and is numbered after the others |
| BodyStorageCursor.ClosedIff | common/body_storage.go:80-87 | A storage is closed if and only if it was closed at some time |
| BodyStorageCursor.RefusesIffClosed | common/body_storage.go:52-108 | Exactly then it refuses reading, seeking, its bytes and new readers |
| BodyStorageCursor.CursorFollows | common/body_storage.go:62-78 | Over every run the bytes read since the last seek are the payload from where it led up to the cursor |
| BodyStorageObjects.MemoryStorage.Read | common/body_storage.go:62-69 | The object takes the specified memory step: its own cursor moves, no reader's does |
| BodyStorageObjects.MemoryStorage.NewReader | common/body_storage.go:98-108 | A fresh cursor object at the start, different from all others; none once closed |
| BodyStorageObjects.ReadSlice | common/body_storage.go:98-108 | Reading from a handed-out reader takes the specified step on the whole storage: that cursor moves and no other, storage closed or not |
| BodyStorageObjects.DiskStorage.Read | common/body_storage.go:196-203 | The object takes the specified disk step: its own descriptor moves, no reader's does |
| BodyStorageObjects.DiskStorage.Seek | common/body_storage.go:205-212 | The object takes the specified disk step; a bad target moves nothing |
| BodyStorageObjects.DiskStorage.Bytes | common/body_storage.go:225-257 | Rewinding, reading in full and seeking back returns everything and leaves the cursor where it was |
| BodyStorageObjects.DiskStorage.Close | common/body_storage.go:214-223 | Only the first call closes the primary descriptor; every reader handed out keeps its cursor and stays open |
| BodyStorageObjects.DiskStorage.NewReader | common/body_storage.go:259-275 | A fresh descriptor at the start over the same contents, different from all others; none once closed |
| BodyStorageObjects.ReadFile | common/body_storage.go:259-275 | Reading from a handed-out descriptor takes the specified step on the whole storage: that cursor moves and no other, storage closed or not |
| BodyStorageObjects.CloseFile | common/body_storage.go:259-275 | Closing it closes that descriptor only; a second close is an error |
| BodyStorageObjects.WholeInputIff | common/body_storage.go:307-348 | On both paths the whole input is kept if and only if it fits, and refused as too large otherwise, except at the largest limit |
| BodyStorageCursor.BytesPlacement | common/body_storage.go:286-305 | Known bytes go to disk if and only if the cache is for them, has room and can be written |
| BodyStorageCursor.ReaderPlacement | common/body_storage.go:307-348 | A body goes to disk by its announced length, or else by its own; only an announced one fails when the cache cannot be written |
| BodyStorageCursor.LimitInBytes | common/gin.go:59-69 | The limit is the setting in megabytes, 128 if it is not positive |
| BodyStorageObjects.LargestLimitLosesInput | common/body_storage.go:307-348 | At the largest limit every input is accepted as empty |
| BodyStorageObjects.MegabyteLimits | common/gin.go:59-69 | For every setting in megabytes, wrapping ones included, the whole body is kept if it fits the limit and refused as too large if not |
| StorageCounters.StepNoneBelowZero | common/disk_cache_config.go:115-122 | No decrement ever takes a disk counter below zero |
| StorageCounters.CountersExact | common/disk_cache_config.go:109-134 | For every interleaving of creations and repeated closes, down to single atomic additions, the counters are the sum of what each storage has added, and the reset to zero is unreachable |
| StorageCounters.SettledCounters | common/body_storage.go:52-87 | When nothing is under way they are the number and total size of the open storages |
| StorageCounters.CountersFromRun | common/disk_cache_config.go:109-134 | Then they are also, from the run alone, the number and total size of the storages created and never closed |
| StorageCounters.NeverHeldUp | common/disk_cache_config.go:109-134 | A storage on its way in or out can always take its next step |
| QuotaMath.SaturateMeaning | common/quota_math.go:78-92 | Saturating is truncating then clamping; a clamp is reported if and only if the value is NaN or out of bounds |
| QuotaMath.StrictAgrees | common/quota_math.go:94-99 | The strict form succeeds exactly in range, with the saturating form's value |
| QuotaMath.RoundAwayFacts | common/quota_math.go:125-134 | Rounding is monotone with an error of at most one half |
| QuotaMath.DecimalIsExact | common/quota_math.go:151-154 | Going through floating point loses nothing: value and clamp are those of integer arithmetic, for every monotone rounding exact up to 2^53 |
| QuotaMath.WalletIsExact | common/quota_math.go:164-171 | The wallet conversion decides as integer arithmetic would at 5*10^14 |
| QuotaMath.WalletConversionsCompare | common/quota_balance.go:32-41 | Rounding and truncating wallet conversions are at most one apart and disagree on acceptance exactly from half a unit to a whole unit beyond the limit |
| QuotaMath.SettleTestQuota | controller/channel-test.go:548-559 | The step-by-step charge is the specified one and stays within 32 bits |
| QuotaMath.ChargeMonotone | controller/channel-test.go:548-559 | Through three roundings the charge is monotone in both token counts for nonnegative ratios, infinite ones included; at most the quota limit; at least one for a positive ratio and zero for a zero one |
| QuotaMeaning.TruncateMeaning | common/quota_math.go:78-92 | Truncation goes towards zero by less than one |
| QuotaMeaning.RoundAwayMeaning | common/quota_math.go:125-134 | Rounding goes to the nearest integer, away from zero where two are equally near |
| QuotaMeaning.SaturateCases | common/quota_math.go:78-92 | Every case of a saturating conversion with its marker |
| QuotaMeaning.BalanceMeaning | common/quota_balance.go:32-41 | The truncated amount is returned if and only if it lies in a range that is one |
| QuotaMeaning.InfiniteArithmetic | controller/channel-test.go:548-559 | Sums and products of infinities as in floating point |
| QuotaMeaning.ChargeMeaning | controller/channel-test.go:548-559 | Completion tokens are scaled by their ratio, added to the prompt tokens, and the sum scaled by the model ratio; at least one unless the model is free |
| QuotaMeaning.WholeScaled | controller/channel-test.go:548-559 | A whole ratio multiplies exactly in any floating-point arithmetic |
| QuotaMeaning.ChargeIsNear | controller/channel-test.go:548-559 | For any ratios the charge is within a half of the tokens' product with the model ratio, or the least charge |
| QuotaMeaning.CostNear | controller/channel-test.go:548-559 | Rounding the weight of the completion changes the cost by at most half the model ratio |
| QuotaMeaning.PriceCharge | controller/channel-test.go:548-559 | A fixed price is charged for truncated, whatever the tokens |

## Left out

- Handlers, request binding, logging, audit records, notifications and database errors: plumbing around the modelled operations.
- InMemoryRateLimiter.Limiter.DeleteExpiredEntries: the ticker goroutine, `Init` called twice and the mutex are not modelled; each locked section is one step.
- WorkerPoolRuns.UncancelledResult: the early return on an empty channel list is the pool with no workers, and contexts without a Done channel are ones never cancelled.
- ChannelHealth.HealthCheck: the test request, the error codes and the keywords are given outcomes; the conversion of the threshold from seconds is left out.
- UpstreamTask.RunTask: notifications, cache refresh and the pause between requests are left out, and a cancelled scan is one that stops after a given number of channels.
- UpstreamApplyAll.ApplyAll: a failing query, the cache refresh itself and the audit record are left out; whether each write succeeds is a parameter.
- MultiKeyChannel.StoredChannel.Manage: the disabled time recorded elsewhere, the polling index, the abilities table and the status listing are left out; JSON array parsing is a parameter.
- EmailDelivery.Deliver: dialing, TLS, authentication and message building are oracle outcomes; deadlines and the report's durations and texts are left out.
- BodyStorageObjects.WholeInputIff: assumes the cache can be written; the error paths of file operations are left out.
- BodyStorageObjects.MemoryStorage.Bytes: returns the contents; that the caller shares the array is not modelled.
- BodyStorageObjects.ReadFile: after the storage's Close removes the file, an open descriptor stays usable, as on Unix.
- StorageCounters.CountersExact: cache cleanup, resets and resynchronization from the directory are excluded, and so are the files cached from URLs and base64 texts, which move the same disk counters (service/file_service.go:209, 366).
- QuotaMath.SettleTestQuota: the tiered-expression branch is left out; negative zero is not distinguished from zero.
- Integer widths: clocks, sizes and counters are unbounded except where a wrap is modelled (granule positions, the size limit, quota bounds).
- Regular expressions, Unicode beyond the white-space list, the other audio formats, email validation, cryptography, authentication flows and exports: library calls or easy members.
