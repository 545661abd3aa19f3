# Verified models of the Go exercise solutions

This project models twelve worked solutions of the repository, those that hold a concurrent
protocol, a data structure with a simpler meaning, or an algorithm with a strong specification, and
proves what they promise over all inputs, all traces of calls and all interleavings.

**Concurrent protocols** (`FanOutFanIn.dfy`, `WorkerPool.dfy`, `EventBroker.dfy` with
`EventBrokerRuns.dfy`, `Pipeline.dfy`, and the concurrent halves of `ShardedCounter.dfy` and
`UrlShortener.dfy`). A protocol is a step relation: `Enabled` says which channel operation, critical
section or atomic instruction a goroutine can perform, `Next` what it does, and `Exec` which states a
series of steps reaches. Channels follow
the rules of `04-concurrency/02-channels.md:24-40` and `:62-88`: a send on an unbuffered channel and
its receive are one step, a buffered one blocks when full, receiving from a closed channel drains it
first, and sending on or closing a closed channel panics. A panic is a state of its own, so that the
theorems can say when it is unreachable, and in three cases exactly when it is reached: `FanOut`
without channels, a Submit or Close after the pool's Close, a cancel repeated or after the broker's
Close. Histories (offers, finished events, handler calls, the order of submission) are part of the
state; steps extend them and never depend on them. What a run was given (events, inputs, URLs, handler
answers) is read off its steps by functions of its own, and theorems tie the state to them.

**Structures** (`LruCache.dfy` with `LruSpec.dfy`, `RateLimiter.dfy`, `TtlCache.dfy`, `ShardedMap.dfy`,
and the classes in `ShardedCounter.dfy` and `UrlShortener.dfy`). Each Go type is a class with the fields of the
source, each method is proved against functions of the old state, and the properties over whole
traces are proved about these functions: inclusion between LRU capacities, the window bound of the
token bucket, invisibility of cleanup in the TTL cache.

**Algorithms** (`MergeIntervals.dfy`, `CommitParser.dfy`, module `Base62` in `UrlShortener.dfy`).
Each loop is proved against a function, and that against an independent meaning: sets of real points,
a grammar together with a printer, the value of a numeral.

`Prelude.dfy` and `Sums.dfy` hold the shared vocabulary.

Where the code falls short of what a reader may expect, the model follows the code and says so with a
lemma that names the input and one that says exactly when: `MergeIntervals.ImproperOrderShows` and
`OrderShowsExactly`, `ShardedMap.LenMissesMoves` and `LenBetweenExactly`, `TtlSpec.SetInGapIsLost` and
`GapHarmlessExactly`, `TokenBucket.WaitEndsExactly`, `EventBroker.UndisciplinedCancelPanics`,
`EventBroker.LateSubscribeBlocksClose`, and the exception that `EventBroker.CloseDrains` makes for a
Subscribe that has not yet reached `wg.Add`. Conventional Commits 1.0.0 (Specification, items 1, 4, 5
and 13) expects the colon right after the scope; the parser accepts anything between the closing
bracket and the colon, and the grammar of `CommitParser.Derives` has that as its `junk` part.

## Model

| member | source | states |
|---|---|---|
| LruSpec.Inclusion | 01-fundamentals/exercises/hard/01-lru-cache/solution/main.go:28-59 | After any trace of Gets and Puts, the recency list of a cache of capacity c is a subsequence of that of capacity d >= c, and every hit of the smaller cache is a hit of the larger one with the same value. |
| LruSpec.InclusionStep | 01-fundamentals/exercises/hard/01-lru-cache/solution/main.go:28-59 | Any one Get or Put keeps the inclusion between two caches, hits and misses in either of them included. |
| LruSpec.RunSpecification | 01-fundamentals/exercises/hard/01-lru-cache/solution/main.go:19-64 | After any trace the keys are the first max(1, capacity) distinct keys of the reversed log of Puts and hitting Gets, all distinct, each with the value of its latest Put. |
| LruSpec.SizeExactly | 01-fundamentals/exercises/hard/01-lru-cache/solution/main.go:40-64 | After any trace the cache holds min(number of distinct keys ever put, capacity) entries, a capacity below 1 counting as 1. |
| LruSpec.PutEvicts | 01-fundamentals/exercises/hard/01-lru-cache/solution/main.go:47-58 | Putting an absent key loses no entry while fewer than capacity are there (or none), and otherwise exactly the one at the back. |
| LruSpec.HitRule | 01-fundamentals/exercises/hard/01-lru-cache/solution/main.go:28-59 | After any trace, Get of a key finds its latest Put value if and only if fewer other keys than the capacity were put or hit since the key last was. |
| LruSpec.MissRule | 01-fundamentals/exercises/hard/01-lru-cache/solution/main.go:28-33 | A key never put is not found. |
| LruSpec.LogCountsHits | 01-fundamentals/exercises/hard/01-lru-cache/solution/main.go:28-59 | The accesses these rules count are every Put and exactly the Gets that found their key. |
| LruCache.LinkedPairs | 01-fundamentals/exercises/hard/01-lru-cache/solution/main.go:11-16 | When list and map agree element for element, the keys of the list are distinct and looking a key up in the map is finding it in the list. |
| LruCache.LRUCache.constructor | 01-fundamentals/exercises/hard/01-lru-cache/solution/main.go:19-25 | An empty cache, with the empty trace behind it, for any capacity. |
| LruCache.LRUCache.Get | 01-fundamentals/exercises/hard/01-lru-cache/solution/main.go:28-37 | Answers what the recency list has for the key; a hit moves to the front, a miss changes nothing; list and map still agree and the contents are those of the trace extended by this Get. |
| LruCache.LRUCache.Put | 01-fundamentals/exercises/hard/01-lru-cache/solution/main.go:40-59 | The key is in front with its new value; an update evicts nothing, an insertion into a full cache gives up exactly the back entry; contents are those of the extended trace. |
| LruCache.LRUCache.MoveToFront | 01-fundamentals/exercises/hard/01-lru-cache/solution/main.go:35-42 | Only the position of the element changes: it is first, the others keep their order and values, the map is untouched. |
| LruCache.LRUCache.Overwrite | 01-fundamentals/exercises/hard/01-lru-cache/solution/main.go:43 | Writing through the element in front changes its value and no other entry. |
| LruCache.LRUCache.Insert | 01-fundamentals/exercises/hard/01-lru-cache/solution/main.go:47-58 | A new key goes in front of what is left after making room; list and map agree. |
| LruCache.LRUCache.RemoveBack | 01-fundamentals/exercises/hard/01-lru-cache/solution/main.go:49-52 | The last list element and its map entry go together, nothing else does. |
| LruCache.LRUCache.PushFront | 01-fundamentals/exercises/hard/01-lru-cache/solution/main.go:56-58 | A fresh element is put before all others and entered in the map. |
| LruCache.LRUCache.Len | 01-fundamentals/exercises/hard/01-lru-cache/solution/main.go:62-64 | The number of entries, at most max(1, capacity), equal to the number of most recent distinct keys of the log. |
| FanOutFanIn.Conservation | 06-concurrency-patterns/exercises/medium/01-fan-out-fan-in/solution/main.go:5-45 | In every run channel k carries input positions k, k+n, k+2n, ... in order, the consumer gets each channel in order and no value more often than it was passed on; a closed output is a permutation of the input. |
| FanOutFanIn.EveryNthAt | 06-concurrency-patterns/exercises/medium/01-fan-out-fan-in/solution/main.go:12-14 | The share of channel k is element k + j*n of the input at place j, for exactly the j for which that position exists. |
| FanOutFanIn.Invariant | 06-concurrency-patterns/exercises/medium/01-fan-out-fan-in/solution/main.go:5-45 | Every reachable state satisfies the network invariant: how far the sender is decides which channels are closed, no forwarder stops early, every value passed on is delivered or in one hand. |
| FanOutFanIn.StepKeepsInv | 06-concurrency-patterns/exercises/medium/01-fan-out-fan-in/solution/main.go:5-45 | Every step of sender, forwarders and closer keeps that invariant. |
| FanOutFanIn.PanicExactlyWithoutChannels | 06-concurrency-patterns/exercises/medium/01-fan-out-fan-in/solution/main.go:10-19 | Some run panics (a send on or close of a closed channel, or i % 0) if and only if n is 0 and there is something to send; so for n > 0 no send ever follows a close. |
| FanOutFanIn.StepDecreases | 06-concurrency-patterns/exercises/medium/01-fan-out-fan-in/solution/main.go:10-44 | Each step strictly decreases the number of channel operations still to come. |
| FanOutFanIn.NoDeadlock | 06-concurrency-patterns/exercises/medium/01-fan-out-fan-in/solution/main.go:10-44 | With a consumer that keeps receiving, every state but the final one has an enabled step. |
| FanOutFanIn.Progress | 06-concurrency-patterns/exercises/medium/01-fan-out-fan-in/solution/main.go:5-45 | A run has at most 3*len(input) + 2n + 3 steps, and one that can go no further has every goroutine finished and the output closed on a permutation of the input. |
| EventBroker.Invariant | 20-kafka/exercises/medium/01-event-processor/solution/main.go:34-100 | Every state reachable by disciplined users satisfies the invariants of subscribers, topic map and running publishes, under any interleaving of Publish, Subscribe, cancel, Close and subscriber goroutines. |
| EventBroker.NoPanic | 20-kafka/exercises/medium/01-event-processor/solution/main.go:43-48 | From such a state no disciplined step sends on a closed channel or closes one twice. |
| EventBroker.CloseSafety | 20-kafka/exercises/medium/01-event-processor/solution/main.go:41-48 | In every run nothing is sent on or closed twice, and outside a running Close every subscriber in the topic map has an open channel of that topic. |
| EventBroker.UndisciplinedCancelPanics | 20-kafka/exercises/medium/01-event-processor/solution/main.go:75-86 | A cancel leads to a double close if and only if it is a second cancel of the subscription or comes after Close swept it. |
| EventBroker.Delivery | 20-kafka/exercises/medium/01-event-processor/solution/main.go:43-73 | Per subscriber, handled, in-hand and buffered events are, in order, the events offered minus exactly those that found 100 buffered; each handled event had one to three handler calls, ending at the first success. |
| EventBroker.OfferedKeepsInv | 20-kafka/exercises/medium/01-event-processor/solution/main.go:43-48 | The select with default keeps the delivery accounting, whether the event is buffered or dropped. |
| EventBroker.TriedKeepsInv | 20-kafka/exercises/medium/01-event-processor/solution/main.go:66-71 | A handler call keeps the delivery accounting, whether it succeeds, fails and is retried, or fails for the third time. |
| EventBroker.CallHandler | 20-kafka/exercises/medium/01-event-processor/solution/main.go:66-71 | The retry loop makes one to three calls, stops at the first success, and gives up only after the third failure. |
| EventBroker.TriedAsLoop | 20-kafka/exercises/medium/01-event-processor/solution/main.go:65-72 | The interleaved handler steps of the protocol end with the very record of calls that the uninterrupted loop makes. |
| EventBroker.RemoveSubscriber | 20-kafka/exercises/medium/01-event-processor/solution/main.go:77-83 | The search loop of cancel removes the subscriber and nobody else, and an absent one changes nothing. |
| EventBroker.RemoveFirstMembers | 20-kafka/exercises/medium/01-event-processor/solution/main.go:78-83 | Removing a subscriber from a list without repetition leaves exactly the others, still without repetition. |
| EventBroker.PublishReachesEachOnce | 20-kafka/exercises/medium/01-event-processor/solution/main.go:43-48 | A finished Publish has offered one event exactly once to each subscriber on the list it goes through and never to any other; which event, and who is on the list, is in PublishOfRun. |
| EventBroker.PublishFindsAll | 20-kafka/exercises/medium/01-event-processor/solution/main.go:43-59 | The subscribers a Publish finds are exactly those of its topic that are neither cancelled nor swept by Close. |
| EventBroker.PublishNeverBlocks | 20-kafka/exercises/medium/01-event-processor/solution/main.go:41-48 | An active Publish always has its next offer or its end enabled, however full the buffers are. |
| EventBrokerRuns.PublishOfRun | 20-kafka/exercises/medium/01-event-processor/solution/main.go:34-49 | From its start to its end in any run, a Publish offers the event of its arguments, exactly once, to each subscription that at its start was on that topic, not cancelled and open, and to no other. |
| EventBrokerRuns.OffersAsPublished | 20-kafka/exercises/medium/01-event-processor/solution/main.go:34-49 | Every offer in a run is of an event that some Publish call was given, to a subscription of the topic that its Subscribe call was given. |
| EventBrokerRuns.HandledWasPublished | 20-kafka/exercises/medium/01-event-processor/solution/main.go:34-73 | Every event a handler is called with was published as it is, on the topic of the subscription. |
| EventBrokerRuns.DeliveryOfRun | 20-kafka/exercises/medium/01-event-processor/solution/main.go:43-73 | By the steps of the run alone: handled, in-hand and buffered events are the published ones offered while fewer than 100 were waiting, in order; as many are taken as were received; and the handler calls, one to three for each event and up to the first success, ended as the handler answered. |
| EventBrokerRuns.RunKeeps | 20-kafka/exercises/medium/01-event-processor/solution/main.go:34-73 | The state holds what the steps of the run say: events published, topics subscribed, cancels, handler answers, the line at each channel. |
| EventBrokerRuns.HandlesOn | 20-kafka/exercises/medium/01-event-processor/solution/main.go:62-73 | While an accepted event is not handled, a started subscriber has a step of its own, whether the broker is closed or not. |
| EventBrokerRuns.LockRules | 20-kafka/exercises/medium/01-event-processor/solution/main.go:41-98 | While a Close holds the lock no Publish is active and Close has a step; otherwise a Publish can start, and with no Publish active also Subscribe, cancel and Close. |
| EventBroker.CloseDrains | 20-kafka/exercises/medium/01-event-processor/solution/main.go:89-100 | When Close returns, a subscriber has had all accepted events handled if and only if its Subscribe had started the goroutine or nothing was accepted; started ones are stopped with closed, empty channels. |
| EventBroker.DrainedForGood | 20-kafka/exercises/medium/01-event-processor/solution/main.go:62-73 | A stopped subscriber is never offered or handed anything again. |
| EventBroker.ClosedWorkerStops | 20-kafka/exercises/medium/01-event-processor/solution/main.go:62-99 | Once its channel is closed, a started subscriber always has a step of its own, each leaves it less to do, and no other step adds to it. |
| EventBroker.WaitEnds | 20-kafka/exercises/medium/01-event-processor/solution/main.go:62-99 | From a state in which all started subscribers have closed channels, and while no further goroutine starts, at most TotalDue worker steps happen, one is always possible while any is due, and Close can return if and only if none is. |
| EventBroker.OnlyCancelsPending | 20-kafka/exercises/medium/01-event-processor/solution/main.go:84-98 | When Close begins to wait, every channel still open is one that a cancel is about to close. |
| EventBroker.OpenSubscriberBlocksClose | 20-kafka/exercises/medium/01-event-processor/solution/main.go:62-99 | While a started subscriber has an open channel no Close can return. |
| EventBroker.LateSubscribeBlocksClose | 20-kafka/exercises/medium/01-event-processor/solution/main.go:51-99 | A concrete run: a Subscribe between the unlock of Close and its wait leaves Close waiting on an open subscription, with no step of either possible. |
| WorkerPool.Invariant | 06-concurrency-patterns/exercises/hard/01-worker-pool/solution/main.go:21-50 | Every reachable state partitions the submitted tasks and ties each result channel to the calls of the handler. |
| WorkerPool.ExactlyOnce | 06-concurrency-patterns/exercises/hard/01-worker-pool/solution/main.go:33-45 | A task that got through Submit is in exactly one of queue, a worker and its result channel; the channel never gets a second result, and what it gets is what the only handler call returned, which was on the argument of its own Submit. |
| WorkerPool.FirstInFirstOut | 06-concurrency-patterns/exercises/hard/01-worker-pool/solution/main.go:24-43 | The tasks taken, then those waiting, are in order the tasks that got through Submit in the run; at most 2*workers wait. |
| WorkerPool.Recorded | 06-concurrency-patterns/exercises/hard/01-worker-pool/solution/main.go:33-45 | The state holds what the steps of the run say: the arguments of the Submits, the answers of the handler, the order of submission. |
| WorkerPool.CallsAsMade | 06-concurrency-patterns/exercises/hard/01-worker-pool/solution/main.go:36 | Each handler call of the run is on the argument of the Submit of its task and has the answer the handler gave. |
| WorkerPool.DeliversHandlerOfInput | 06-concurrency-patterns/exercises/hard/01-worker-pool/solution/main.go:33-45 | When the handler is a function, the channel of each Submit delivers that function of the argument of this Submit and nothing else. |
| WorkerPool.SubmitBlocksWhenFull | 06-concurrency-patterns/exercises/hard/01-worker-pool/solution/main.go:24-43 | Before Close a Submit gets through if and only if fewer than 2*workers tasks have been submitted and not taken. |
| WorkerPool.NeverIdle | 06-concurrency-patterns/exercises/hard/01-worker-pool/solution/main.go:33-39 | While a submitted task has no result the pool has a step to take. |
| WorkerPool.ResultSendNeverBlocks | 06-concurrency-patterns/exercises/hard/01-worker-pool/solution/main.go:37-42 | A worker holding a result always finds the slot of its result channel free. |
| WorkerPool.CloseDeliversAll | 06-concurrency-patterns/exercises/hard/01-worker-pool/solution/main.go:47-50 | When Close has returned, every task that got through Submit has exactly one result, that of the handler call on the argument of its Submit. |
| WorkerPool.PanicExactlyAfterClose | 06-concurrency-patterns/exercises/hard/01-worker-pool/solution/main.go:43-48 | A run panics if and only if it has a Close, or the send of a Submit, after a Close. |
| WorkerPool.CloseProgress | 06-concurrency-patterns/exercises/hard/01-worker-pool/solution/main.go:33-50 | After Close is called the pool has an enabled step of its own until Close returns, and each such step decreases a measure. |
| WorkerPool.OthersLeaveWork | 06-concurrency-patterns/exercises/hard/01-worker-pool/solution/main.go:33-50 | Once the queue is closed, steps of callers leave the work of the pool as it is. |
| WorkerPool.CloseReturnsInTime | 06-concurrency-patterns/exercises/hard/01-worker-pool/solution/main.go:33-50 | After Close is called at most Remaining steps of the pool follow, whatever else goes on, and until Close returns one is enabled. |
| TokenBucket.WindowBound | 04-concurrency/exercises/hard/01-rate-limiter/solution/main.go:26-45 | In any run with an ordered clock, at most burst + rate*(t-s) Allow calls with a reading in [s, t] succeed. |
| TokenBucket.AlwaysFilled | 04-concurrency/exercises/hard/01-rate-limiter/solution/main.go:26-45 | In every state of every run 0 <= tokens <= burst. |
| TokenBucket.SpendsWhatFlowsIn | 04-concurrency/exercises/hard/01-rate-limiter/solution/main.go:26-45 | What a run spends until t is at most the tokens at its start plus what flows in until t. |
| TokenBucket.GrantsWhateverFits | 04-concurrency/exercises/hard/01-rate-limiter/solution/main.go:26-45 | For any run: a poll succeeds if and only if with it no window ending there exceeds the tokens at the start, or the burst, plus rate times its length. The bounds are exact. |
| TokenBucket.GrantsInARow | 04-concurrency/exercises/hard/01-rate-limiter/solution/main.go:26-45 | If tokens + rate * (time to the first poll) >= k and k <= burst, the next k polls all succeed. |
| TokenBucket.PauseGrants | 04-concurrency/exercises/hard/01-rate-limiter/solution/main.go:26-45 | Whatever came before, after a pause of d with d * rate >= k and k <= burst the next k polls all succeed. |
| TokenBucket.GrantsAtOnce | 04-concurrency/exercises/hard/01-rate-limiter/solution/main.go:36-45 | Of polls at one moment exactly the first succeed, one for each whole token there, up to the burst. |
| TokenBucket.FreshGrantsBurst | 04-concurrency/exercises/hard/01-rate-limiter/solution/main.go:17-45 | A fresh limiter grants exactly its first burst of polls at one moment. |
| TokenBucket.RefillsCompose | 04-concurrency/exercises/hard/01-rate-limiter/solution/main.go:26-34 | A refill at x followed by one at y is the refill at y, cap included. |
| TokenBucket.DeniedPollsUnobservable | 04-concurrency/exercises/hard/01-rate-limiter/solution/main.go:36-45 | Deleting any set of denied Allow calls from a run leaves every other outcome unchanged. |
| TokenBucket.FailedPollsBound | 04-concurrency/exercises/hard/01-rate-limiter/solution/main.go:47-59 | With rate > 0 and burst >= 1, polls at least 5 ms apart fail at most ceil(200/rate) times in a row. |
| RateLimiter.RateLimiter.constructor | 04-concurrency/exercises/hard/01-rate-limiter/solution/main.go:17-24 | The bucket starts full at the current time. |
| RateLimiter.RateLimiter.Refill | 04-concurrency/exercises/hard/01-rate-limiter/solution/main.go:26-34 | The fields follow the refill of the bucket. |
| RateLimiter.RateLimiter.Allow | 04-concurrency/exercises/hard/01-rate-limiter/solution/main.go:36-45 | Answers and updates as one poll of the bucket, so all the run properties apply to it. |
| TokenBucket.WaitEndsExactly | 04-concurrency/exercises/hard/01-rate-limiter/solution/main.go:47-59 | Without cancellation, and with polls at least 5 ms apart, some poll succeeds if and only if burst >= 1 and either rate > 0 or a token is there at the start; otherwise Wait polls forever. |
| RateLimiter.RateLimiter.Wait | 04-concurrency/exercises/hard/01-rate-limiter/solution/main.go:47-59 | For every wait that ends: all polls before the last one fail; it succeeds exactly on the first allowed poll, fails only right after a cancelled select, takes one token in all, and respects the bound on failed polls. |
| MergeIntervals.SortSlice | interview-problems/medium/01-merge-intervals/solution/main.go:15-17 | Some permutation of the elements in order of Start, in place; equal Starts in any order. |
| MergeIntervals.Merge | interview-problems/medium/01-merge-intervals/solution/main.go:10-31 | Any input: the result covers the same real points and the slice is left sorted (short ones untouched); proper intervals: it is in order with strict gaps. |
| MergeIntervals.MergedKeeps | interview-problems/medium/01-merge-intervals/solution/main.go:19-30 | The merge of a sorted list keeps coverage, order by Start and, for proper intervals, strict gaps. |
| MergeIntervals.CanonicalUnique | interview-problems/medium/01-merge-intervals/solution/main.go:10-31 | Two ordered lists with strict gaps that cover the same points are equal. |
| MergeIntervals.OrderIndependent | interview-problems/medium/01-merge-intervals/solution/main.go:15-30 | The result is the same for every permutation of the input and every order the unstable sort may choose. |
| MergeIntervals.OrderShowsExactly | interview-problems/medium/01-merge-intervals/solution/main.go:15-30 | For any input, some two orders the sort may choose give different results if and only if some interval ends before it starts, no interval that starts earlier reaches its start, and another one differs from it with the same start. |
| MergeIntervals.ImproperOrderShows | interview-problems/medium/01-merge-intervals/solution/main.go:15-30 | A concrete such input: two orders of [5,3] and [5,9] with two results. |
| MergeIntervals.CanonicalShortest | interview-problems/medium/01-merge-intervals/solution/main.go:10-31 | No list with the same coverage has fewer intervals. |
| MergeIntervals.MergedIsCanonicalForm | interview-problems/medium/01-merge-intervals/solution/main.go:10-31 | For proper input the merge is shortest among all lists with that coverage and the only one with strict gaps. |
| ShardedCounter.Invariant | 23-performance/exercises/hard/01-sharded-counter/solution/main.go:50-71 | Under any interleaving of ticket and add steps, shard j holds exactly the finished Incs whose ticket selects j, and the sum is the number of finished Incs. |
| ShardedCounter.StepKeepsInv | 23-performance/exercises/hard/01-sharded-counter/solution/main.go:60-63 | Either half of an Inc keeps that invariant and never lowers a shard. |
| ShardedCounter.StepsCounted | 23-performance/exercises/hard/01-sharded-counter/solution/main.go:60-63 | In any run the tickets and the sum of the shards are the numbers of first and second halves of Inc that were taken. |
| ShardedCounter.ValueBetween | 23-performance/exercises/hard/01-sharded-counter/solution/main.go:60-71 | A Value that overlaps any number of Incs lies between the adds done at its start and at its end. |
| Sums.ScanBetween | 23-performance/exercises/hard/01-sharded-counter/solution/main.go:65-71 | A scan that reads growing shards at different times sums up to something between the totals at its two ends. |
| ShardedCounter.ScansMonotone | 23-performance/exercises/hard/01-sharded-counter/solution/main.go:65-71 | Of two Values that do not overlap the later is not smaller. |
| ShardedCounter.ValueAtRest | 23-performance/exercises/hard/01-sharded-counter/solution/main.go:60-71 | With no Inc in flight Value is exactly the number of Incs. |
| ShardedCounter.TicketsSpread | 23-performance/exercises/hard/01-sharded-counter/solution/main.go:61 | Of m finished tickets shard j got m/n, and one more if 1 <= j <= m % n: counting starts at shard 1. |
| ShardedCounter.ShardsBalanced | 23-performance/exercises/hard/01-sharded-counter/solution/main.go:60-63 | At rest any two shards differ by at most one. |
| ShardedCounter.Counter.constructor | 23-performance/exercises/hard/01-sharded-counter/solution/main.go:50-58 | All shards zero; a count of zero or less becomes the number of processors. |
| ShardedCounter.Counter.Ticket | 23-performance/exercises/hard/01-sharded-counter/solution/main.go:61 | The first atomic step of Inc, as a step of the protocol. |
| ShardedCounter.Counter.Add | 23-performance/exercises/hard/01-sharded-counter/solution/main.go:62 | The second atomic step of Inc, as a step of the protocol. |
| ShardedCounter.Counter.Inc | 23-performance/exercises/hard/01-sharded-counter/solution/main.go:60-63 | Uninterrupted, both steps on the same ticket: one more ticket, one more finished Inc. |
| ShardedCounter.Counter.Value | 23-performance/exercises/hard/01-sharded-counter/solution/main.go:65-71 | With any atomic steps of other goroutines before each load, the loop sums what its loads find in the shards, between the Incs finished at its start and at its end. |
| Base62.ToBase62 | 17-system-design/exercises/medium/01-url-shortener/solution/main.go:27-37 | The loop yields the numeral of the id; a negative id, never used, yields the empty string. |
| Base62.NumeralFacts | 17-system-design/exercises/medium/01-url-shortener/solution/main.go:27-37 | The numeral decodes back to the id, has no leading zero, and for an int64 at most 11 digits. |
| Base62.DigitsOfDecode | 17-system-design/exercises/medium/01-url-shortener/solution/main.go:27-37 | Conversely every numeral without leading zero is the one of the number it decodes to. |
| Base62.DigitTable | 17-system-design/exercises/medium/01-url-shortener/solution/main.go:11 | The alphabet lists 0-9, a-z, A-Z: each position holds the digit that arithmetic on character codes gives. |
| UrlShortener.InsertKeepsInv | 17-system-design/exercises/medium/01-url-shortener/solution/main.go:47-58 | The write-locked section keeps the two maps mutually inverse and the codes exactly the numerals of 1 .. counter. |
| UrlShortener.StepKeepsInv | 17-system-design/exercises/medium/01-url-shortener/solution/main.go:39-59 | Any step of any interleaved Shorten keeps the invariant, every mapping made so far, and every answer given so far. |
| UrlShortener.MapsInverse | 17-system-design/exercises/medium/01-url-shortener/solution/main.go:27-59 | In every interleaving the maps are mutually inverse, the codes are exactly the numerals of 1 .. counter, and no id is wasted. |
| UrlShortener.CallsAsBegun | 17-system-design/exercises/medium/01-url-shortener/solution/main.go:39-59 | Each call keeps the URL it was given. |
| UrlShortener.StoredWasReturned | 17-system-design/exercises/medium/01-url-shortener/solution/main.go:39-59 | Only a code that some call has returned for that URL is ever stored. |
| UrlShortener.CallsGoOn | 17-system-design/exercises/medium/01-url-shortener/solution/main.go:39-59 | A call that has not returned has a step to take, and its second section returns. |
| UrlShortener.CodesIdentifyUrls | 17-system-design/exercises/medium/01-url-shortener/solution/main.go:39-59 | Two returned calls have the same code if and only if they had the same URL, however they interleaved. |
| UrlShortener.ResolvesForever | 17-system-design/exercises/medium/01-url-shortener/solution/main.go:39-68 | A returned code resolves to its URL then and after any further steps. |
| UrlShortener.Shortener.constructor | 17-system-design/exercises/medium/01-url-shortener/solution/main.go:20-25 | Empty maps, counter zero. |
| UrlShortener.Shortener.ShortenReadLocked | 17-system-design/exercises/medium/01-url-shortener/solution/main.go:40-45 | The first critical section: a lookup without effect. |
| UrlShortener.Shortener.ShortenWriteLocked | 17-system-design/exercises/medium/01-url-shortener/solution/main.go:47-58 | The second critical section: the second lookup, and otherwise a new id, its numeral and both map entries. |
| UrlShortener.Shortener.Shorten | 17-system-design/exercises/medium/01-url-shortener/solution/main.go:39-59 | Uninterrupted: the returned code is the one of the URL and resolves to it, and no other mapping changes. |
| UrlShortener.Shortener.Resolve | 17-system-design/exercises/medium/01-url-shortener/solution/main.go:61-68 | The URL of the code, or not found. |
| TtlSpec.RefinesPlain | 05-sync/exercises/medium/01-cache-with-ttl/solution/main.go:36-87 | In any run with an ordered clock and harmless late deletions every Get and Len answers as a map that never purges; what that is, with the boundary of each, is in GetByEvents and LenByEvents. |
| TtlSpec.GetByEvents | 05-sync/exercises/medium/01-cache-with-ttl/solution/main.go:48-74 | After such a run, Get at time now finds value v if and only if the last Set of the key stored v, no Delete of it followed, and now <= set time + ttl. |
| TtlSpec.LenByEvents | 05-sync/exercises/medium/01-cache-with-ttl/solution/main.go:48-87 | After such a run, Len at time now is the number of keys whose last Set is followed by no Delete and has now < set time + ttl. |
| TtlSpec.LenAndGet | 05-sync/exercises/medium/01-cache-with-ttl/solution/main.go:62-82 | Len counts a key if and only if Get finds it and now is not exactly its expiry. |
| TtlSpec.CleanupInvisible | 05-sync/exercises/medium/01-cache-with-ttl/solution/main.go:28-68 | Two runs with the same user calls, whatever cleanup ticks and late deletions each has and wherever, give the same answers. |
| TtlSpec.CleanupLeavesTheLive | 05-sync/exercises/medium/01-cache-with-ttl/solution/main.go:37-43 | A cleanup tick leaves exactly the entries of the never-purging map that have not expired. |
| TtlSpec.AtomicHarmless | 05-sync/exercises/medium/01-cache-with-ttl/solution/main.go:54-68 | When every Get is atomic there is no harmful deletion, so the two results above hold without proviso. |
| TtlSpec.GapHarmlessExactly | 05-sync/exercises/medium/01-cache-with-ttl/solution/main.go:54-68 | A Get reads its entry, finds it expired at its look at the clock, and deletes the key later: the next Get differs from the never-purging map, and the deletion does harm, if and only if the events in between have a Set of the key, still alive at the deletion, with no later Set or Delete of it. |
| TtlSpec.ClearGapsExactly | 05-sync/exercises/medium/01-cache-with-ttl/solution/main.go:54-68 | A run whose late deletions each follow a missed Look has no harmful deletion if and only if no gap has such a Set, and then every Get and Len answers as the never-purging map. |
| TtlSpec.AliveAfterGap | 05-sync/exercises/medium/01-cache-with-ttl/solution/main.go:48-74 | A key that is not alive is alive after any series of events if and only if they have such a Set. |
| TtlSpec.LateClock | 05-sync/exercises/medium/01-cache-with-ttl/solution/main.go:54-67 | A Get that reads the clock later than its entry answers as an atomic Get at one of the two moments, unless the entry expires in between while such a Set keeps the key alive, and only then not. |
| TtlSpec.SetInGapIsLost | 05-sync/exercises/medium/01-cache-with-ttl/solution/main.go:55-63 | With a Set in the gap the fresh entry is deleted: a concrete run in which the next Get misses it. |
| TtlCache.Cache.constructor | 05-sync/exercises/medium/01-cache-with-ttl/solution/main.go:19-26 | An empty cache. |
| TtlCache.Cache.Set | 05-sync/exercises/medium/01-cache-with-ttl/solution/main.go:48-52 | The entry is stored with expiry now + ttl. |
| TtlCache.Cache.Read | 05-sync/exercises/medium/01-cache-with-ttl/solution/main.go:55-57 | The read-locked lookup: the entry as it is, or none. |
| TtlCache.Cache.Get | 05-sync/exercises/medium/01-cache-with-ttl/solution/main.go:54-68 | Uninterrupted: answers the value unless absent or expired (strictly after its time); an expired entry is deleted. What may come between its reading, its look at the clock and its deletion is covered by GapHarmlessExactly and LateClock. |
| TtlCache.Cache.Delete | 05-sync/exercises/medium/01-cache-with-ttl/solution/main.go:70-74 | Removes the key. |
| TtlCache.Cache.Len | 05-sync/exercises/medium/01-cache-with-ttl/solution/main.go:76-87 | Counts exactly the entries whose time is still to come. |
| TtlCache.Cache.Cleanup | 05-sync/exercises/medium/01-cache-with-ttl/solution/main.go:36-43 | The loop over a changing map removes exactly the expired entries. |
| CommitParser.ParseCommit | 29-git/exercises/easy/01-commit-parser/solution/main.go:22-59 | The step-by-step parser computes the specification function, error cases included. |
| CommitParser.FillFromPrefix | 29-git/exercises/easy/01-commit-parser/solution/main.go:34-58 | What stands before the colon is taken apart in place: the breaking mark, then scope, then the check of the type, each failure with no record. |
| CommitParser.AcceptsExactlyTheGrammar | 29-git/exercises/easy/01-commit-parser/solution/main.go:22-59 | A message is accepted with a record if and only if the grammar (type, optional scope, "!", first ": ", description) derives the two together. |
| CommitParser.PrintParse | 29-git/exercises/easy/01-commit-parser/solution/main.go:22-59 | Printing a valid record and parsing it gives the record back. |
| CommitParser.ParsePrintParse | 29-git/exercises/easy/01-commit-parser/solution/main.go:22-59 | Every accepted record is printable, and parse(print(parse(m))) = parse(m). |
| CommitParser.ScopedPrefix | 29-git/exercises/easy/01-commit-parser/solution/main.go:43-49 | type(scope) followed by anything gives that type and scope. |
| CommitParser.FirstColon | 29-git/exercises/easy/01-commit-parser/solution/main.go:23-29 | The split is at the end of the head if and only if the head has no ": " of its own. |
| CommitParser.IndexFrom | 29-git/exercises/easy/01-commit-parser/solution/main.go:23-44 | The first occurrence, or -1 when there is none. |
| CommitParser.TrimTwice | 29-git/exercises/easy/01-commit-parser/solution/main.go:29 | Trimming is idempotent. |
| CommitParser.TrimExactly | 29-git/exercises/easy/01-commit-parser/solution/main.go:29 | Trimming takes away white space at both ends, all of it and nothing else. |
| CommitParser.ListedTypes | 29-git/exercises/easy/01-commit-parser/solution/main.go:17-20 | The accepted types are the nine of the table and no others. |
| CommitParser.ValidTypeLetters | 29-git/exercises/easy/01-commit-parser/solution/main.go:17-20 | The listed types are non-empty lower-case words, so none can contain a bracket, "!" or colon. |
| Pipeline.Invariant | 06-concurrency-patterns/exercises/easy/01-pipeline/solution/main.go:3-36 | In every reachable state what the consumer has, what the stages hold and what is still to come make up the filtered squares. |
| Pipeline.Determinism | 06-concurrency-patterns/exercises/easy/01-pipeline/solution/main.go:3-36 | In every interleaving nothing panics and the output is a prefix of filter(pred, map(square, nums)); all of it once the last channel is closed. |
| Pipeline.SquaredWraps | 06-concurrency-patterns/exercises/easy/01-pipeline/solution/main.go:19 | A square is n * n modulo 2^64, in the range of int64. |
| Pipeline.MappedAt | 06-concurrency-patterns/exercises/easy/01-pipeline/solution/main.go:18-20 | The squares are those of the numbers, place by place. |
| Pipeline.FilteredExactly | 06-concurrency-patterns/exercises/easy/01-pipeline/solution/main.go:29-33 | Filtering keeps, in order, exactly the values that satisfy the predicate. |
| Pipeline.StepDecreases | 06-concurrency-patterns/exercises/easy/01-pipeline/solution/main.go:3-36 | Each step strictly decreases a measure. |
| Pipeline.NoDeadlock | 06-concurrency-patterns/exercises/easy/01-pipeline/solution/main.go:3-36 | With a consumer that keeps receiving, some step is enabled until the last stage has ended. |
| Pipeline.Terminates | 06-concurrency-patterns/exercises/easy/01-pipeline/solution/main.go:3-36 | A run has at most 3*len(nums) + 3 steps, and one that can go no further has closed all channels and delivered exactly that sequence. |
| ShardedMap.OwnShard | interview-problems/hard/01-concurrent-map/solution/main.go:30-49 | When keys live only in their own shard, looking a key up there is looking it up in the whole map. |
| ShardedMap.SetOwnShard | interview-problems/hard/01-concurrent-map/solution/main.go:36-41 | A write to the own shard keeps placement and is the write to the whole map. |
| ShardedMap.DeleteOwnShard | interview-problems/hard/01-concurrent-map/solution/main.go:51-56 | A deletion in the own shard keeps placement and is the deletion from the whole map. |
| ShardedMap.RunsAsPlain | interview-problems/hard/01-concurrent-map/solution/main.go:36-56 | Any run of Sets and Deletes leaves the shards together with what it leaves one plain map with. |
| ShardedMap.UnionSize | interview-problems/hard/01-concurrent-map/solution/main.go:58-66 | The shard sizes add up to the size of the whole map. |
| ShardedMap.LenBounds | interview-problems/hard/01-concurrent-map/solution/main.go:58-66 | Under any concurrent Sets and Deletes, Len differs from the size of the map at its start by at most the removals (down) and additions (up) within its window, and from the size at its end by at most the additions (down) and removals (up). |
| ShardedMap.LenBetween | interview-problems/hard/01-concurrent-map/solution/main.go:58-66 | When no step of the run removes a present key, Len lies between the sizes of the map at its start and at its end. |
| ShardedMap.LenBetweenExactly | interview-problems/hard/01-concurrent-map/solution/main.go:51-66 | Every Len over every window of a run lies between the sizes at its ends if and only if no step of the run removes a present key. |
| ShardedMap.Balance | interview-problems/hard/01-concurrent-map/solution/main.go:36-66 | Shard by shard and over any window, size and removals balance the former size and the additions. |
| ShardedMap.LenMissesMoves | interview-problems/hard/01-concurrent-map/solution/main.go:58-66 | In the run that sets key 0 and then deletes key 1, a Len that reads shard 0 before and shard 1 after answers 0, though the map has 1, 2 and 1 entries along the way. |
| ShardedMap.ShardedMap.constructor | interview-problems/hard/01-concurrent-map/solution/main.go:19-28 | Answers as the empty map. |
| ShardedMap.ShardedMap.GetShard | interview-problems/hard/01-concurrent-map/solution/main.go:30-34 | The shard the hash selects, within range. |
| ShardedMap.ShardedMap.Set | interview-problems/hard/01-concurrent-map/solution/main.go:36-41 | As one plain map. |
| ShardedMap.ShardedMap.Get | interview-problems/hard/01-concurrent-map/solution/main.go:43-49 | As one plain map. |
| ShardedMap.ShardedMap.Delete | interview-problems/hard/01-concurrent-map/solution/main.go:51-56 | As one plain map. |
| ShardedMap.ShardedMap.Len | interview-problems/hard/01-concurrent-map/solution/main.go:58-66 | The size of the plain map. |
| ShardedMap.ShardedMap.Range | interview-problems/hard/01-concurrent-map/solution/main.go:68-79 | Unstopped, each pair of the map is visited exactly once; stopped, the pairs up to and including the first refusal, each once. |
| ShardedMap.ShardedMap.RangeShard | interview-problems/hard/01-concurrent-map/solution/main.go:69-78 | One shard of that traversal, in any order within the shard. |

## Left out

- Clocks: `time.Now`, tickers and sleeps are parameters or the times attached to calls. The rate limiter theorems take the clock not to go back, and rate and burst not to be negative.
- RateLimiter.RateLimiter.Wait: covers waits that end, by cancellation or by a poll that succeeds; `TokenBucket.WaitEndsExactly` says when one without cancellation does. The choice of its select is the parameter `cancelled`.
- Rounding: `float64` tokens are real numbers.
- Machine width: counters and tickets stay below their limits. The product in `Square` does wrap around at 64 bits.
- Goroutines as Dafny objects: the channel protocols are step relations over values, as Dafny has no threads; loops of theirs that stand alone (handler retries, the search of cancel) are methods.
- Slices that share memory: the broker's `append(subs[:i], subs[i+1:]...)` shifts the old backing array in place, which is seen by nobody because every reader holds the lock; here it makes a new list. That `MergeIntervals` returns its argument itself for fewer than two intervals is modelled by value.
- `container/list`: the list is a sequence of element objects; its next and previous pointers are not modelled.
- MergeIntervals.SortSlice: the body is not the library's; its contract promises only what `sort.Slice` does.
- Fields without effect: the broker's `closed` (never read) and a subscriber's `done` channel (never used).
- `sync.WaitGroup` counters: represented by the goroutines that have not finished, with the broker's late `wg.Add` kept as a step of its own. The panics that a WaitGroup raises itself, when an Add meets a Wait that is waking up, are not modelled.
- EventBroker.CloseDrains: the step CloseReturns stands for the moment the count of the WaitGroup reaches zero; a goroutine started between that moment and the actual return of Close is outside it.
- TtlCache.Cache.Get: one call at one time; the trace theorems have its deletion as a later step, and a look at the clock after the reading is in `TtlSpec.LateClock` but not in the traces of `TtlSpec.RefinesPlain`.
- `sync.RWMutex`: writer preference and fairness are not modelled; any waiting goroutine may be next.
- ShardedCounter.Counter.Value: the steps that other goroutines take between its loads are the parameter `others`.
- ShardedMap under concurrency: each Set, Get and Delete takes one lock and is atomic, so Len is looked at in its parts, over runs of Sets and Deletes; a Range overlapping with writers is not.
- Hashing: FNV and `fmt.Sprint` are any function of the key.
- Panics of `make` and of a zero modulus outside FanOut: a negative number of channels, workers or shards, and a shard count of zero (or a multiple of 2^32, which the conversion to `uint32` makes zero).
- White space: the predicate behind `strings.TrimSpace` is a parameter; strings are sequences of characters, not bytes.
- The predicate of `Filter` is a function without state; handlers of the pool and the broker may answer anything but are taken to return.
- `Close` of the TTL cache, which only ends the cleanup goroutine; `MutexCounter` and `AtomicCounter`, which are one field each.
- Exercise stubs, Go tests, Markdown lessons, servers, crypto, reflection and CRUD exercises, and `FetchAll`, whose guarantees belong to `errgroup`, which is not part of this model.
- The ping-pong exercise: its alternation does not hold for every n.
