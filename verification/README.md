# Soil in Dafny

A model of the parts of Soil, a Go toolkit for web services, whose correctness depends on
interleavings, on text that another program reads, or on pointers, with proofs of what they
promise. `dafny verify dfyconfig.toml` checks everything.

Conventions. A protocol is a transition system: one step per lock region, atomic operation or
channel operation, a total function `Do` in which an impossible step changes nothing, and
theorems about `Exec` of every sequence of steps. Code that updates fields, lists or buffers is
a class or a method over them, tied by its contract to a function of the old state; the laws
are lemmas about that function. Errors and panics are values. Where a promise does not hold of
the code, a lemma gives a concrete case and another says exactly when it does hold.

- **Balancing** (`Endpoints`, `Balancer`, `BalancerCas`): smooth weighted round robin, first
  as the sequential algorithm, then with concurrent picks that publish by compare-and-swap.
- **Transport** (`Multiplexer`, `MultiplexerReplies`, `MultiplexerWaking`, `ServerDrain`,
  `ServerDrainReads`, `ServerDrainLoop`, `ServerDrainEnd`, `StreamPool`, `ConnPool`, `ConnPoolLife`): request
  multiplexing over one connection and where each reply comes from, graceful drain and why it is
  never stuck, and the two bounded pools that drop their lock around dialling and pinging.
- **Codecs** (`Bytes`, `FrameCodec`, `FrameStream`, `RequestCodec`): binary frames, frames
  written concurrently under a lock, and the delimiter-based request with map metadata.
- **Rate limiting** (`RateLimit`, `RateLimitRace`, `RateLimitBound`): the token bucket and the eviction of idle
  addresses, for requests one at a time and for interleaved requests.
- **Pointer structures** (`Cache`, `CacheRuns`, `Router`): the byte-budgeted linked-list cache and the
  routing tree.
- **SQL** (`SqlText`, `SqlGrammar`, `SqlBuilder`, `SqlNested`, `SqlWhere`, `SqlStatement`, `SqlUpdate`,
  `SqlReadBack`, `OptimisticLock`, `LostUpdates`): the builders print text and arguments; a
  lexer and a recursive-descent reader written after ISO/IEC 9075:1992 (sections 5.2, 8.12,
  13.7 and 13.10) read the text back, binding each placeholder to the next argument; the
  statement read is run on rows in three-valued logic. The optimistic-locking theorems are
  about the rows after this whole way, for every interleaving of statements.

Where the code and its comments disagree the code is followed. A comment in orm/builder.go
says the soft-delete condition is combined with the user's conditions by AND; a single OR is
not parenthesised, so it is not (`SqlWhere.LoneOrMeans`). The frame validation accepts magic 0
and version 0, which the decoder refuses (`FrameCodec.ZeroIsWrittenButRefused`). Re-setting a cached
key does not respect the capacity (`Cache.ResettingOverfills`). The comments on eviction in
web/middleware/ratelimit/ratelimit.go describe the re-check as covering concurrent requests; a
request that loses it takes from the evicted bucket (`RateLimitRace.RaceAdmitsOneTooMany`). An
Update(val) that assigns the version explicitly is still checked against it but does not raise it,
so the lock no longer protects the row (`LostUpdates.PinnedUpdateIsLost`).

## Model

| member | source | states |
|---|---|---|
| Endpoints.WeightOf | micro/net/endpoint.go:208-213 | An endpoint's effective weight is its configured weight when that is positive, and exactly 1 otherwise |
| Endpoints.HeaviestIsMax | micro/net/endpoint.go:150-168 | The reference notion behind deduplication: the heaviest weight of an address bounds every mention of it and is attained by one |
| Endpoints.DedupedMeaning | micro/net/endpoint.go:150-168 | The deduplicated list has exactly the addresses of the input, each once, each with its heaviest weight |
| Endpoints.DedupedInOrder | micro/net/endpoint.go:150-168 | Its entries are in the order in which the input first mentions their addresses |
| Endpoints.DedupeEndpoints | micro/net/endpoint.go:150-168 | The loop over the map and the list computes that list |
| Balancer.FirstMax | micro/net/balancer.go:133-141 | The selection ends at the first of the largest credits |
| Balancer.WinnerIsPositive | micro/net/balancer.go:130-142 | Bumped credits add up to the total, so the chosen credit is positive and the start value of the search never wins |
| Balancer.AdvanceKeepsBalance | micro/net/balancer.go:130-149 | Every pick keeps: credits sum to zero, none is as low as minus the total, weights sum to the total |
| Balancer.CreditsAreBounded | micro/net/balancer.go:130-142 | Every credit computed lies strictly above minus the total and at most n times the total |
| Balancer.Ledger | micro/net/balancer.go:118-160 | After n picks an endpoint's credit is n times its weight minus the total for each time it was chosen |
| Balancer.PrefixShare | micro/net/balancer.go:118-160 | After any n picks total*picks_i < n*w_i + total |
| Balancer.NoDebtAfterRound | micro/net/balancer.go:118-160 | After total picks no credit is negative |
| Balancer.RoundReturnsToStart | micro/net/balancer.go:118-160 | After total picks the whole state is the start state again |
| Balancer.EveryWindowIsFair | micro/net/balancer.go:118-160 | Any total consecutive picks, starting anywhere in the run, choose endpoint i exactly weight_i times |
| Balancer.Start | micro/net/balancer.go:174-186 | The state built for a non-empty candidate list is fresh and matches the list |
| Balancer.MatchesExactly | micro/net/balancer.go:162-172 | A stored state matches a candidate list if and only if it has the list's addresses and weights in the same order |
| Balancer.BuildState | micro/net/balancer.go:174-186 | The loop builds that state |
| Balancer.BumpAndSelect | micro/net/balancer.go:130-142 | The in-place loop over the copied credits ends with the advanced credits and the first largest index |
| Balancer.Search | micro/net/balancer.go:151-156 | The final search stops at the first candidate with the wanted address |
| Balancer.SelectNext | micro/net/balancer.go:130-156 | From a balanced state to its successor and the endpoint chosen |
| Balancer.WeightedRoundRobin.constructor | micro/net/balancer.go:114-116 | A new balancer holds no state |
| Balancer.WeightedRoundRobin.Pick | micro/net/balancer.go:118-160 | One pick: a single candidate touches nothing; otherwise a stored state for exactly these candidates advances once, any other is replaced by the start state advanced once, and the endpoint returned is the one chosen |
| Balancer.PickMany | micro/net/balancer.go:118-160 | A run of picks of the object on one list returns exactly the endpoints of the sequential run |
| Balancer.PickManyIsFair | micro/net/balancer.go:118-160 | So any total consecutive picks of the object, starting anywhere, return endpoint i exactly weight_i times |
| Balancer.PickManyShares | micro/net/balancer.go:118-160 | And of its first m picks fewer than m*weight_i/total + 1 return endpoint i |
| BalancerCas.CommitExtendsRun | micro/net/balancer.go:144-150 | Swapping in the advanced state extends a sequential run by its next pick |
| BalancerCas.SwapKeepsInv | micro/net/balancer.go:150-159 | A compare-and-swap, successful or not, keeps the invariant: each segment between two Stores is a sequential run and no two picks share a commit |
| BalancerCas.OtherStepsKeepInv | micro/net/balancer.go:123-128 | Starting, loading and storing keep the invariant |
| BalancerCas.Exec | micro/net/balancer.go:118-160 | The invariant holds after every interleaving of Load, Store and CompareAndSwap steps of any number of picks |
| BalancerCas.ConcurrentPicksAreFair | micro/net/balancer.go:123-159 | In every interleaving, the commits between two Stores satisfy the prefix bound at each prefix and are exactly fair on each full window |
| BalancerCas.ReturnedPickIsCommitted | micro/net/balancer.go:150-158 | Every returned pick is a commit of its own, shared with no other pick, and returns that commit's endpoint |
| BalancerCas.AloneIsSequential | micro/net/balancer.go:118-160 | A pick whose steps nothing comes between does what the object's Pick does: the state of its candidates, or a fresh one, advances once and its choice is returned |
| BalancerCas.OneListOneSegment | micro/net/balancer.go:123-128 | Once a state for a list is stored, picks on that list store no other, in every interleaving: the rest of the run is one segment, so its fairness is that of the whole rest |
| Multiplexer.InvAlways | micro/net/stream.go:121-248 | The ownership invariant holds after every interleaving of calls, arriving frames, close and give-ups, whatever the ids, shared ones included |
| Multiplexer.ChannelHasOneOwner | micro/net/stream.go:121-184 | Each channel is in exactly one of: pending, the read loop's hands, the failing thread's hands, delivered, abandoned; at most one result ever enters it |
| Multiplexer.NothingIsDropped | micro/net/stream.go:121-161 | The default branches of the two non-blocking sends are never taken |
| Multiplexer.ReplyIsForTheCaller | micro/net/stream.go:187-248 | A result a caller gets is a failure or a reply with the caller's own request id, in every run |
| MultiplexerReplies.ReplyIsTheFrameThatArrived | micro/net/stream.go:121-134 | In every run a reply a caller gets is a frame that arrived in this run with the caller's id and exactly this payload, after the caller's registration and while that was pending |
| MultiplexerReplies.FailureMeansClosed | micro/net/stream.go:137-161 | A failure a caller gets comes from closing the stream after its registration, while that was pending |
| MultiplexerReplies.OneFrameOneCaller | micro/net/stream.go:121-134 | One arrival serves at most one caller, also among callers that share an id |
| MultiplexerReplies.ArrivedFrameIsTheResult | micro/net/stream.go:121-134 | Conversely a frame that has arrived for a pending registration is the only result that ever enters its channel, in every continuation |
| MultiplexerReplies.CallerGetsTheFrame | micro/net/stream.go:228-246 | So what a caller gets after such an arrival is that frame |
| MultiplexerReplies.OneCallerOneFrame | micro/net/stream.go:121-134 | One registration takes at most one frame |
| MultiplexerReplies.EndsExactly | micro/net/stream.go:187-248 | A call under way ends exactly by receiving, giving up or failing to write, and has a result exactly in the first case |
| MultiplexerReplies.OutcomeStays | micro/net/stream.go:211-248 | A call that has ended keeps what it got and finishes exactly by its unregister |
| MultiplexerReplies.NoResultExactly | micro/net/stream.go:214-231 | In every run a call has ended without a result if and only if it gave up or failed to write at some step |
| Multiplexer.NobodyIsStranded | micro/net/stream.go:137-161 | When no two calls under way ever share an id, as with attempts one after the other, every waiter on a closed stream has a result in its channel or its channel is held by a thread about to send |
| Multiplexer.DistinctIsApart | micro/net/stream.go:163-184 | Calls of pairwise different ids are never under way with the same id |
| Multiplexer.StrandedIsAbandoned | micro/net/stream.go:180-184 | On a closed stream exactly those waiters are stranded whose channel a deferred unregister has taken away |
| Multiplexer.StrandedStays | micro/net/stream.go:187-248 | A stranded caller stays stranded through every further run until its own context ends |
| Multiplexer.NobodyIsStrandedExactly | micro/net/client.go:143-145 | For every assignment of ids to calls, no interleaving strands a caller if and only if the ids are pairwise different |
| Multiplexer.CounterIdsDiffer | micro/net/client.go:337-339 | Ids drawn from the counter are pairwise different in every run |
| Multiplexer.CounterStrandsNobody | micro/net/client.go:337-339 | Hence with ids from the counter nobody is ever stranded |
| MultiplexerWaking.WokenExactly | micro/net/stream.go:137-161 | In every run a waiter on a closed stream gets a result on some way on, without giving up, if and only if it is not stranded |
| MultiplexerWaking.CounterCountsDraws | micro/net/client.go:337-339 | The counter is the number of ids drawn by this and the client's other streams |
| MultiplexerWaking.IdIsExact | micro/net/client.go:143-145 | In every run a call has, for good, the id its user gave, or without one the number of draws up to its own |
| Multiplexer.RepeatedIdStrandsAWaiter | micro/net/client.go:143-145 | Any two calls given the same id have a run that leaves the second a waiter nothing will wake, as when one Request is used for two calls |
| ServerDrain.InvAlways | micro/net/server.go:76-285 | The invariant below holds after every interleaving of accepts, reads, handlers, drain and shutdown; the semaphore and the wait group change in separate steps |
| ServerDrain.WaitGroupIsExact | micro/net/server.go:102-247 | The wait group equals live connections plus running requests, and semaphore slots never exceed the maximum |
| ServerDrain.CloseComesAfterReplies | micro/net/server.go:159-285 | Outside the timeout branch a connection is closed only after every request admitted on it has attempted its one reply, none if one-way |
| ServerDrain.AtMostOneLateRequest | micro/net/server.go:102-247 | After closed is set each connection admits at most one further request to a handler |
| ServerDrain.DoneStaysDone | micro/net/server.go:102-145 | After a graceful shutdown has returned no request is ever admitted again |
| ServerDrain.GracefulShutdownIsFinal | micro/net/server.go:102-145 | After a graceful shutdown every request ever admitted is finished and has made its reply, in every continuation of the run |
| ServerDrain.SecondShutdownDoesNotWait | micro/net/server.go:103-105 | Counterexample for any other Shutdown: one that finds the server closed returns nil while a request is being handled |
| ServerDrainReads.RequestIsAsRead | micro/net/server.go:196-245 | In every run each admitted request is the one read last on its connection before its admission, one-way exactly if the frame was, and no two requests come from one read |
| ServerDrainLoop.EndsExactly | micro/net/server.go:174-227 | The read loop ends exactly when a test sees the server closed or the connection draining, or a read fails |
| ServerDrainLoop.TopExactly | micro/net/server.go:186-246 | It comes round to its top exactly after an admitted request, another kind of frame or a refusal by the rate limiter |
| ServerDrainLoop.FlagsExactly | micro/net/server.go:129-157 | A connection is marked draining exactly by Shutdown's walk or by an exit that saw a flag, and closed by force exactly after a timeout |
| ServerDrainLoop.AtMostOneLateFrame | micro/net/server.go:186-207 | In every run at most one more frame is read on a connection after the server is closed |
| ServerDrainLoop.DrainingReadsNoMore | micro/net/server.go:186-190 | A draining connection that is not in a read never reads again, in every continuation |
| ServerDrainLoop.DrainingAdmitsNoMore | micro/net/server.go:223-245 | And unless a request has passed the last test already, no request is admitted on it any more |
| ServerDrainEnd.ShutdownEndsExactly | micro/net/server.go:102-145 | In every run the server is closed if and only if Shutdown was called; that call has returned regularly if and only if its wait saw the count at zero, and timed out if and only if its deadline came while it waited |
| ServerDrainEnd.Finishes | micro/net/server.go:102-285 | From every state of the invariant in which a Shutdown waits there is a sequence of steps to its regular return: connections go to their exit, then requests finish, then connections leave |
| ServerDrainEnd.ShutdownCanAlwaysFinish | micro/net/server.go:102-285 | So in every reachable state a waiting Shutdown is not stuck: some continuation of the run lets it return regularly |
| ConnPool.AccountingAlwaysHolds | micro/pool/pool.go:162-414 | Every run from an accounted pool keeps connCnt = idle + active + in transit, idle duplicate-free and at most maxIdleCnt, and every connection in one place only |
| ConnPool.EveryRunIsAccounted | micro/pool/pool.go:96-145 | So the accounting holds in every state that a pool opened with accepted settings can get into |
| ConnPoolLife.LeavesAndEntersExactly | micro/pool/pool.go:162-414 | A connection leaves the pool exactly by failing a ping, coming back expired or unhealthy, being found stale, or finding no idle room, and enters it exactly by a dial or by a raw Put that finds room |
| ConnPoolLife.LeasedExactly | micro/pool/pool.go:227-260 | A lease begins exactly with the newest idle connection when nothing is pinged, with a popped one whose ping succeeds, or with one just dialled |
| ConnPoolLife.ParkedExactly | micro/pool/pool.go:333-401 | A connection is parked, behind all others, exactly when there is room and it comes back sound, or is put in raw |
| ConnPoolLife.PingedExactly | micro/pool/pool.go:294-331 | A connection is pinged exactly when it is the newest idle one being taken or comes back unexpired, and is set aside for closing exactly when a sweep finds it stale |
| ConnPoolLife.DialsExactly | micro/pool/pool.go:239-250 | A dial begins exactly when nothing is idle and the pool is below its capacity, and a failed one gives its place back |
| ConnPoolLife.SoundConnectionIsKept | micro/pool/pool.go:313-328 | A ping that succeeds leases the popped connection, and parks the returned one if there is room |
| ConnPoolLife.CondemnedIsNeverHandedOut | micro/pool/pool.go:294-414 | In every run of a new pool a connection that failed a ping, came back expired, was marked unhealthy or was found stale is neither idle nor leased again |
| ConnPoolLife.LastPingSucceeded | micro/pool/pool.go:313-390 | In every run a connection in the pool or on lease has not been pinged or its last ping succeeded |
| ConnPool.CapKeptExactly | micro/pool/pool.go:333-357 | A step keeps connCnt within maxConnCap if and only if it is not a raw Put of an unknown connection into a pool at capacity with idle room |
| ConnPool.CapKeptThroughout | micro/pool/pool.go:219-357 | A newly opened pool stays within maxConnCap throughout a run if and only if no step of the run is such a Put |
| ConnPool.CapNeverExceeded | micro/pool/pool.go:219-271 | In particular no run of a newly opened pool without raw Puts exceeds maxConnCap |
| ConnPool.RawPutExceedsCap | micro/pool/pool.go:333-357 | Counterexample: a raw Put into a pool of capacity one gives two connections |
| ConnPool.IdleList.SweepLocked | micro/pool/pool.go:180-199 | The backward loop keeps, in order, exactly the connections not idle longer than maxIdleTime nor older than a positive lifetime, and returns exactly the others |
| ConnPool.SweepCounted | micro/pool/pool.go:162-217 | A sweep moves connections from idle to closing without changing the count's balance |
| ConnPool.SweepPlaced | micro/pool/pool.go:162-217 | A sweep leaves every connection in one place only |
| StreamPool.InvDo | micro/net/pool.go:80-325 | Every step keeps the bound, and a dial that comes back to an open pool finds room |
| StreamPool.InvAlways | micro/net/pool.go:80-325 | The bound holds after every interleaving |
| StreamPool.PoolIsBounded | micro/net/pool.go:80-325 | In every interleaving streams plus dials never exceed maxOpen, no stream is listed twice, the full-after-dial branch is never taken, a closed pool is empty |
| StreamPool.MaxOpenIsFixed | micro/net/pool.go:56-62 | The bound is the configured one in every run, 1 if that is not positive |
| StreamPool.ClosedExactly | micro/net/pool.go:306-325 | The pool is closed in a run if and only if Close was called |
| StreamPool.ListedExactly | micro/net/pool.go:80-325 | A stream leaves the list exactly when it is found dead, expired or idle, fails a heartbeat, or the pool closes, and the only one that comes is that of a dial into an open pool |
| StreamPool.DialingIsExact | micro/net/pool.go:102-117 | In every run the dials in flight are those begun minus those that came to an end, whichever way |
| StreamPool.LockedPool.CompactLocked | micro/net/pool.go:184-195 | In-place compaction leaves exactly the living streams in order |
| StreamPool.LockedPool.PickLocked | micro/net/pool.go:168-182 | The scan returns the first least loaded living stream, or nothing exactly when none lives |
| StreamPool.LockedPool.EnterGet | micro/net/pool.go:80-104 | The first lock region of Get takes exactly the dial, reuse or wait step: it reuses the least loaded living stream, dials only when every living stream has at least 32 requests, and waits only when full with no living stream |
| StreamPool.LockedPool.FinishDial | micro/net/pool.go:106-131 | The second lock region adds the dialled stream exactly when the pool is still open |
| StreamPool.LockedPool.ClosePool | micro/net/pool.go:306-325 | Close hands out all streams and empties the pool |
| RateLimit.TokenBucket.constructor | web/middleware/ratelimit/ratelimit.go:27-35 | A new bucket is full |
| RateLimit.TokenBucket.Take | web/middleware/ratelimit/ratelimit.go:46-65 | In numbers: the bucket then has its tokens plus rate*(now - lastTime), at most its capacity, and unchanged when the clock has not moved on; it admits exactly when that is at least 1 and then gives 1 away |
| RateLimit.TakeInNumbers | web/middleware/ratelimit/ratelimit.go:46-65 | The same of the bucket as a value, for all clock readings |
| RateLimit.SpendIsPaidFor | web/middleware/ratelimit/ratelimit.go:46-65 | One request never spends more than there was plus rate times the time passed |
| RateLimit.TokensAreConserved | web/middleware/ratelimit/ratelimit.go:46-65 | Over every run tokens plus admissions are at most the first tokens plus rate*(t-s), s and t the first and last lastTime |
| RateLimit.AdmissionIsBounded | web/middleware/ratelimit/ratelimit.go:27-65 | A run whose lastTime goes from s to t admits at most capacity + rate*(t-s), whatever the clock readings |
| RateLimit.Limiter.GetOrCreateBucket | web/middleware/ratelimit/ratelimit.go:153-183 | For one request at a time: the address's bucket, or a new full one exactly when there is none or a positive ttl has passed since its lastTime |
| RateLimit.Limiter.Handle | web/middleware/ratelimit/ratelimit.go:114-148 | For one request at a time: takes from its own address's bucket and changes no other |
| RateLimit.EvictionChangesNothing | web/middleware/ratelimit/ratelimit.go:153-195 | If rate*ttl covers the capacity, serving a request with eviction gives the same decision and the same buckets as without |
| RateLimit.EvictionIsInvisible | web/middleware/ratelimit/ratelimit.go:153-195 | Then all decisions agree on every timed sequence of requests, one at a time, from any addresses |
| RateLimit.SecondBurstEvicting | web/middleware/ratelimit/ratelimit.go:153-195 | With a shorter ttl a second burst after it meets a full bucket |
| RateLimit.SecondBurstKeeping | web/middleware/ratelimit/ratelimit.go:46-65 | Without eviction the second burst meets only what the time in between has earned |
| RateLimit.ShortTtlIsVisible | web/middleware/ratelimit/ratelimit.go:185-195 | With a positive ttl that does not cover the capacity some sequence of requests gets different answers |
| RateLimit.EvictionIsInvisibleExactly | web/middleware/ratelimit/ratelimit.go:185-195 | For requests one at a time, eviction is invisible on all sequences if and only if it is off or rate*ttl covers the capacity |
| RateLimitRace.AloneIsServed | web/middleware/ratelimit/ratelimit.go:153-183 | The lock regions of a request with no other in between do what the one-at-a-time limiter does |
| RateLimitRace.AloneGetsItsBucket | web/middleware/ratelimit/ratelimit.go:153-183 | Before its take such a request holds the bucket the map then has for its address |
| RateLimitRace.RaceAdmitsOneTooMany | web/middleware/ratelimit/ratelimit.go:159-169 | For every rate, positive ttl and positive capacity there is an interleaving that admits one request more than the capacity at one instant: those that lose the re-check take from the evicted bucket |
| RateLimitRace.EvictionIsInvisibleExactly | web/middleware/ratelimit/ratelimit.go:153-195 | For interleaved requests eviction is invisible if and only if it is off or the capacity is zero, however large rate*ttl is |
| RateLimitBound.BucketIsBounded | web/middleware/ratelimit/ratelimit.go:46-65 | In every interleaving one bucket admits at most its capacity at one instant |
| RateLimitBound.InstantIsBounded | web/middleware/ratelimit/ratelimit.go:114-183 | So the requests admitted at one instant are at most the capacity times the buckets they took from |
| RateLimitBound.NoBound | web/middleware/ratelimit/ratelimit.go:153-195 | There is no bound on those buckets: for every rate, positive ttl and positive capacity and every n there is a run that admits at least n requests of one address at one instant |
| Bytes.GetPut | micro/net/frame.go:135-144 | Big-endian integers read back, for every width |
| Bytes.BigEndian | micro/net/frame.go:135-144 | Two, four and eight bytes read as the number with the most significant byte first |
| Bytes.PutInto | micro/net/frame.go:135-144 | Storing an integer byte by byte changes exactly its own bytes |
| FrameCodec.FixedHeaderParses | micro/net/frame.go:135-144 | The 22 header bytes parse to the frame's fields, with lengths cut to 32 bits |
| FrameCodec.FrameLayout | micro/net/frame.go:119-144 | The wire format by byte positions: magic, version, type, flags, reserved, the two lengths, the request id, then header and body |
| FrameCodec.ValidatedExactly | micro/net/frame.go:119-133 | Exactly which frames pass the validation, by magic, version and lengths |
| FrameCodec.DecodeEncode | micro/net/frame.go:189-236 | A sendable frame in front of any bytes is read back unchanged and exactly its bytes are consumed |
| FrameCodec.DecodedIsSendable | micro/net/frame.go:189-236 | Whatever the decoder accepts is sendable under the same limits |
| FrameCodec.DecodeExactly | micro/net/frame.go:189-236 | For every byte stream: exactly which error the decoder gives, by the bytes in front, or else which frame and which rest |
| FrameCodec.RoundTripExactly | micro/net/frame.go:119-236 | The round trip holds if and only if the frame is sendable |
| FrameCodec.ZeroIsWrittenButRefused | micro/net/frame.go:119-127 | Every frame of magic 0 or version 0 that passes validate is refused by the decoder, with the error named |
| FrameCodec.ZeroFrames | micro/net/frame.go:119-127 | Counterexamples to the round trip: the smallest such frames |
| FrameCodec.TruncatedFrameIsShort | micro/net/frame.go:189-236 | No frame is taken from any proper beginning of its encoding |
| FrameCodec.DecodeAllConcat | micro/net/frame.go:189-236 | A reader of a stream that starts with sendable frames takes those first, in order, and then what it takes from the rest |
| FrameCodec.DecodeAllEncodeAll | micro/net/frame.go:189-236 | A stream of sendable frames is read back in order, up to its end |
| FrameCodec.DecodeAllIsSendable | micro/net/frame.go:189-236 | Whatever the bytes, every frame a reader takes from a stream is sendable |
| FrameCodec.UniquelyDecodable | micro/net/frame.go:119-236 | Two sequences of sendable frames with equal bytes are equal |
| FrameCodec.WriteHeaderFields | micro/net/frame.go:135-144 | The in-place writes produce the header bytes and leave the rest of the buffer |
| FrameCodec.EncodeWithLimits | micro/net/frame.go:103-133 | The one-buffer encoder returns the encoding exactly for magic and version zero or right and lengths within the limits, and the validation error otherwise |
| FrameCodec.Reader.ReadFull | micro/net/common.go:33-38 | Reads exactly n bytes or reports the end |
| FrameCodec.DecodeFrame | micro/net/frame.go:189-236 | The stepwise decoder agrees with the specification on every byte stream, errors included, and on the bytes it leaves |
| FrameStream.ThreeWritesAreOneFrame | micro/net/frame.go:155-181 | Header, header bytes and body written separately are the encoding |
| FrameStream.InvAlways | micro/net/server.go:299-307 | Under the write lock, partial writes of any number of handlers keep the connection's bytes equal to the sent frames plus a beginning of the current one, for all frames that pass the validation |
| FrameStream.OnlyTheHolderWrites | micro/net/server.go:299-307 | The lock is taken exactly when free and the frame valid; only its holder writes or unlocks |
| FrameStream.WholeIsSent | micro/net/frame.go:155-181 | A writer that is not disturbed puts exactly its frame's encoding on the wire and gives the lock back |
| FrameStream.StreamIsIntactExactly | micro/net/server.go:299-307 | In every interleaving the frames a reader takes begin with the frames sent, in lock order, if and only if each of those has magic and version set and parts shorter than 2^32 bytes; with no write under way they are then exactly the frames sent |
| FrameStream.PartIsIntact | micro/net/server.go:299-307 | While such a frame is being written the reader is left with a proper beginning of it, or has it once all is out |
| FrameStream.ReaderStops | micro/net/frame.go:119-131 | Counterexamples: a sent frame of magic 0 or version 0 ends what the reader takes, whatever is sent after it |
| RequestCodec.LengthIsOrderFree | micro/rpc/message/request.go:26-31 | All iteration orders of the metadata give the same number of bytes |
| RequestCodec.MetaSizeOf | micro/rpc/message/request.go:26-31 | The calculated metadata size is the size of the bytes in any order |
| RequestCodec.DecodeEncoding | micro/rpc/message/request.go:38-126 | Whatever the iteration order, a clean request decodes to itself |
| RequestCodec.RequestLayout | micro/rpc/message/request.go:38-73 | The wire format by byte positions: head length, body length, message id, version, compressor, serializer, the two names each ended by LF, the metadata, the data |
| RequestCodec.EntryLayout | micro/rpc/message/request.go:58-65 | Each metadata entry is its key, CR, its value, LF |
| RequestCodec.DecodedFields | micro/rpc/message/request.go:83-126 | For every input that decodes: each field of the result by the bytes it was read from |
| RequestCodec.DecodedIsClean | micro/rpc/message/request.go:83-126 | The decoder never puts a delimiter inside a name, a key or a value |
| RequestCodec.RoundTripExactly | micro/rpc/message/request.go:38-126 | For correct lengths the round trip holds if and only if no name, key or value holds a line feed and no key a carriage return |
| RequestCodec.ReturnInKeyMovesTheCut | micro/rpc/message/request.go:58-65 | Counterexamples: every entry whose key holds a carriage return decodes to another key and another value |
| RequestCodec.FeedInValuePanics | micro/rpc/message/request.go:105-120 | Counterexamples: every value with a line feed and no carriage return after it makes the decoder panic |
| RequestCodec.CalculateLengths | micro/rpc/message/request.go:26-35 | The 32-bit sums give the exact lengths modulo 2^32, hence the exact lengths when they fit |
| RequestCodec.EncodeRequest | micro/rpc/message/request.go:38-73 | For all length fields: panics exactly when the allocated buffer is shorter than the real header, else writes header, metadata in some order, and the data cut or padded to the buffer |
| RequestCodec.CalculatedRoundTripExactly | micro/rpc/message/request.go:26-73 | End to end, for every request: with calculated lengths the encoder panics if and only if the header plus the data length modulo 2^32 reaches 2^32; else the other side decodes the request with its data cut to that length if and only if it is clean, and the request itself if and only if besides the data is shorter than 2^32 bytes |
| RequestCodec.CalculateAndEncode | micro/rpc/message/request.go:26-73 | The two calls one after the other: the same panic condition and the same round trip |
| RequestCodec.WrittenIsEncoding | micro/rpc/message/request.go:38-73 | With the calculated lengths those bytes are the encoding |
| RequestCodec.WriteMeta | micro/rpc/message/request.go:58-65 | The map loop writes the entries in the order met, and fails exactly when they do not fit |
| RequestCodec.WriteData | micro/rpc/message/request.go:67-70 | Byte by byte: as much of the data as fits stands behind the header if the body length is positive, and everything else stays zero |
| RequestCodec.DecodeMetaLoop | micro/rpc/message/request.go:105-120 | The decoding loop over the shrinking header terminates with the specified map |
| RequestCodec.DecodeRequest | micro/rpc/message/request.go:83-126 | The decoder agrees with the specification on every input; None stands for its panics |
| Router.PatternsAreUnique | web/route.go:47-152 | In every tree of the kept shape two nodes never have the same pattern |
| Router.GrowKeepsShape | web/route.go:47-152 | Hanging a new child where it is allowed keeps star, parameter and regular-expression children mutually exclusive at each node |
| Router.HandleServes | web/route.go:236-241 | Setting a handler on a node registers exactly that node's pattern |
| Router.JoinSplit | web/route.go:228-228 | Splitting a path at its slashes loses nothing |
| Router.TrimExactly | web/route.go:291-291 | Trimming cuts off slashes at both ends, all of them and nothing else |
| Router.SplitJoin | web/route.go:228-228 | Joining segments without slashes and splitting gives the segments back |
| Router.PathOfSegments | web/route.go:226-291 | A path of segments is registered under those segments and looked up by them |
| Router.RegexNeverReused | web/route.go:130-152 | An existing regular-expression child always conflicts, since the check reads the parent's own fields |
| Router.RegexPositionIsFinal | web/route.go:130-152 | Hence no later registration walks through a position held by a regular expression |
| Router.KindExactly | web/route.go:47-108 | The kind of a segment by its text alone: star, colon name and parenthesised expression, another colon name, or plain |
| Router.RegexSegmentSays | web/route.go:96-108 | A segment :name(expr), with no parenthesis in the name, gives exactly that name and that expression |
| Router.RegexSegmentIs | web/route.go:96-108 | Every segment taken for a regular expression is of that form |
| Router.NameExactly | web/route.go:96-108 | The parameter name of a segment is what stands between the colon and the expression, and no other segment has one |
| Router.TurnExactly | web/route.go:47-152 | A segment conflicts at a node exactly when the tree has a sibling pattern of a kind that excludes it or its expression does not compile; otherwise it leads to the node of its own pattern, if there is one |
| Router.WalkableExactly | web/route.go:228-234 | A path can be registered exactly when its segments are not empty, its expressions compile, and no registered pattern clashes with it on the way |
| Router.MethodTree.constructor | web/route.go:211-217 | A new tree serves nothing |
| Router.MethodTree.Create | web/route.go:47-152 | Creates the child and nothing else |
| Router.MethodTree.ChildOrCreate | web/route.go:47-152 | Panics, reuses or creates exactly as the segment's kind and the siblings say |
| Router.MethodTree.Walk | web/route.go:228-234 | A registration's walk ends at the node of its own pattern, exactly when no conflict lies on the way |
| Router.MethodTree.AddRoute | web/route.go:196-242 | Registers exactly its own route, if and only if the path is well formed, the pattern new, every segment non-empty with an expression that compiles, and no pattern in the tree clashes with it; the path is its pattern joined by slashes, the root path is the empty pattern; any panic leaves the routes as they were |
| Router.MethodTree.FindInTree | web/route.go:286-328 | The lookup loop returns the specified node; a name is bound exactly if the matched pattern names it, to the segment at its last mention; the matched path is the pattern joined by slashes; the fallback to the star child is never reached |
| Router.ParamsMean | web/route.go:309-317 | The parameters collected for a pattern, by names and positions |
| Router.PathTextJoins | web/route.go:309-313 | The matched path is a slash and the pattern's segments joined by slashes |
| Router.ChildMatches | web/route.go:154-180 | The child taken for a segment matches it |
| Router.FindMatches | web/route.go:286-328 | The node found has a pattern that matches the request's segments |
| Router.LookupIsSound | web/route.go:286-328 | A lookup ending at a handler serves a registered route whose pattern matches |
| Router.LookupIsCompleteExactly | web/route.go:286-328 | A registered route answers a request its pattern matches if and only if no static sibling or handled star prefix shadows it |
| Router.AnsweredExactly | web/route.go:286-328 | A request ends at a handler if and only if it matches some registered route beside which no static sibling takes it away; so a matched request ends at no handler exactly when that happens at every route it matches |
| Router.LookupDoesNotGoBack | web/route.go:154-166 | Counterexamples: with routes like /a/:id and /a/b/c in any tree, the request /a/b matches the first and ends at the node on the way to the second, which has no handler |
| Router.MatchedWithoutHandler | web/route.go:196-328 | Such a tree built by two registrations, and such a request looked up in it |
| Cache.RemoveNode | cache/localCache.go:251-254 | Unlinks exactly the given node from a well-linked chain |
| Cache.AddToHead | cache/localCache.go:244-249 | Links a node in right after the head |
| Cache.EvictsShortestTail | cache/localCache.go:122-133 | The eviction loop removes exactly the shortest tail that makes room, and fails exactly when the pair exceeds the capacity |
| Cache.BudgetKeptExactly | cache/localCache.go:121-139 | From within budget, storing an absent pair that fits ends within budget if and only if size + pairSize does not wrap at 32 bits |
| Cache.OverfullNeverEvicts | cache/localCache.go:121-133 | Once size is past the capacity the unsigned margin wraps and nothing is evicted |
| CacheRuns.BackWithinExactly | cache/localCache.go:121-133 | A Set of an absent key brings an overfull cache back within its budget, or empties it by the panic, if and only if the check asks for room and the loop stops at no front of the list that is itself over the budget |
| CacheRuns.HugeNodeBringsBack | cache/localCache.go:121-133 | A case of it: four bytes and 2^32-1 bytes under a capacity of eight, and six bytes to store |
| CacheRuns.OverfullForever | cache/localCache.go:95-142 | With pairs of at most 2^31 bytes an overfull cache stays overfull through every run of Set, Get and Delete |
| CacheRuns.SetWhenOverfull | cache/localCache.go:95-142 | A Set of the cache object is one of the steps of those runs |
| Cache.BuildInMapCache.constructor | cache/localCache.go:46-58 | A new cache is well linked and empty |
| Cache.BuildInMapCache.LinkFirst | cache/localCache.go:244-249 | A node outside the list becomes its first |
| Cache.BuildInMapCache.Store | cache/localCache.go:144-160 | A new node for the key at the front of list and map, with its size added |
| Cache.BuildInMapCache.Unlink | cache/localCache.go:251-254 | A node leaves the list, wherever it is, and never a sentinel |
| Cache.BuildInMapCache.RemoveTail | cache/localCache.go:260-264 | The last node leaves list and map, and its size is given back |
| Cache.BuildInMapCache.MakeRoom | cache/localCache.go:122-133 | The loop over the linked list terminates with the specified prefix, or with an empty list where the source panics |
| Cache.BuildInMapCache.MoveToHead | cache/localCache.go:256-259 | The node moves to the front and the list keeps its members and its bytes |
| Cache.BuildInMapCache.SetPresent | cache/localCache.go:113-120 | Setting a present key updates and moves its node and adds a second one, with no capacity check: the bytes grow by the pair |
| Cache.BuildInMapCache.SetAbsent | cache/localCache.go:121-139 | Setting an absent key keeps the specified prefix, drops the keys of the evicted nodes and adds the new one |
| Cache.BuildInMapCache.Set | cache/localCache.go:95-142 | Keeps the list well linked with every map entry a list node; a present key ends within budget if and only if there was room; an absent one, from within budget, if and only if the sum does not wrap, after evicting the shortest tail; a key survives if and only if no node of it was evicted |
| Cache.BuildInMapCache.Peek | cache/localCache.go:181-190 | The first lock region of Get reads the node as it is: expired exactly when it has a deadline before now |
| Cache.BuildInMapCache.Recheck | cache/localCache.go:190-204 | The second lock region serves a key renewed meanwhile and moves it to the front, and drops one whose deadline is still before now |
| Cache.BuildInMapCache.Get | cache/localCache.go:163-205 | Get serves a key exactly if it is stored without a deadline or with one not before now; an expired one is dropped, nothing else changes |
| Cache.SetThenGet | cache/localCache.go:95-205 | What a Set stored, Get returns, until the deadline has passed |
| Cache.BuildInMapCache.Delete | cache/localCache.go:207-226 | Delete drops the key from the map only; its node keeps its place and its bytes |
| Cache.ResettingOverfills | cache/localCache.go:113-120 | Counterexample: a cache of capacity 8 that holds 16 bytes under one key |
| Cache.WrappingOverfills | cache/localCache.go:121-133 | Counterexample: a cache of capacity 2^32 - 1 that holds 2^32 bytes and counts 0 |
| Cache.StaleNodeTakesLiveKey | cache/localCache.go:126-131 | Counterexample: evicting the node an earlier Set of a key left behind drops the live key, whose newer node stays in the list |
| SqlText.ReadQuoted | orm/builder.go:164-170 | A quoted identifier is read back whatever quote characters it contains |
| SqlGrammar.CondReads | orm/builder.go:83-113 | Factors joined by AND read as one conjunction, to the left, under section 8.12 of ISO/IEC 9075:1992 |
| SqlGrammar.OrReads | orm/builder.go:83-113 | Two conjunctions joined by OR read as their disjunction |
| SqlBuilder.Builder.Quote | orm/builder.go:164-170 | Appends the quoted name with embedded quotes doubled |
| SqlBuilder.Builder.BuildColumn | orm/builder.go:115-147 | Appends the column or fails, exactly as specified; table and alias forms included |
| SqlBuilder.ColumnIsQualified | orm/builder.go:115-147 | A column of a joined table is read back as qualified by the table's alias, or by its name if it has none |
| SqlBuilder.Builder.BuildAggregate | orm/builder.go:149-162 | Appends the aggregate call and its alias |
| SqlBuilder.AliasIsRead | orm/builder.go:115-162 | A column or an aggregate with an alias is read back as itself, AS and the alias, whatever quotes the alias contains |
| SqlBuilder.Builder.BuildExpression | orm/builder.go:26-81 | Appends text and arguments of any expression, or fails exactly on unknown fields, unknown entities and unsupported expressions |
| SqlBuilder.Builder.BuildBinaryExpr | orm/builder.go:83-96 | Appends left side, operator and right side |
| SqlBuilder.Builder.BuildSubExpr | orm/builder.go:98-113 | Parenthesises exactly the sub-predicates |
| SqlBuilder.Builder.BuildPredicates | orm/builder.go:16-23 | The loop combines several predicates by AND, to the left |
| SqlBuilder.CondReadsBack | orm/builder.go:16-113 | The tokens of a printed predicate read as its own tree in front of anything that ends a condition |
| SqlBuilder.PredicateRoundTrip | orm/builder.go:16-113 | For every tree of comparisons of operands, AND, OR, NOT and raw leaves the emitted text parses back to the same tree, the k-th placeholder bound to the k-th argument, none left over |
| SqlNested.TreeRoundTripExactly | orm/predicate.go:22-58 | For every tree the constructors build, comparisons with a predicate on the right included: the text parses back to the tree if no comparison in it has one, and otherwise reads as no search condition |
| SqlNested.TreeFails | orm/builder.go:66-100 | Wherever in the tree such a comparison is and whatever follows, reading fails |
| SqlNested.ComparedComparison | orm/column.go:33-39 | A case of it: a column compared with a comparison |
| SqlBuilder.FoldedOk | orm/builder.go:16-23 | A folded where is an OR at its root only when it is a single OR |
| SqlWhere.FilterReads | orm/builder.go:184-203 | The clause with its automatic conditions reads as one tree, a lone OR included |
| SqlWhere.LexFilter | orm/builder.go:184-203 | The emitted clause lexes to exactly that input with its arguments in order |
| SqlWhere.ComparisonMeans | orm/predicate.go:5-16 | A comparison holds exactly between two values that are not NULL, in the direction of its operator, and is unknown exactly when one is NULL |
| SqlWhere.LogicMeans | orm/predicate.go:35-58 | NOT, AND and OR in three-valued logic: when each is true, and that they are dual |
| SqlWhere.FoldedMeans | orm/builder.go:16-23 | Folding by AND means: every predicate is true, in three-valued logic |
| SqlWhere.FilterMeans | orm/builder.go:184-203 | Unless the where is a lone OR, the clause selects exactly the rows with a NULL deleted column that satisfy every predicate and have the expected version |
| SqlWhere.LoneOrSelects | orm/builder.go:196-200 | With a lone OR the soft-delete condition binds to the left side only and the version condition to the right side only |
| SqlWhere.LoneOrMeans | orm/builder.go:196-200 | With a lone OR the clause agrees with the intention on a row if and only if the row is neither a live left match of a wrong version nor a deleted right match of the right version |
| SqlStatement.LexItems | orm/updater.go:49-124 | The printed SET list lexes to its items in order with one comma between two of them |
| SqlStatement.ItemsRead | orm/updater.go:49-124 | The SET list reads back clause by clause |
| SqlStatement.TailReads | orm/updater.go:126-152 | The filter and the semicolon read as the filter's tree with nothing left over |
| SqlUpdate.BuildWhere | orm/builder.go:184-203 | Appends the WHERE clause with the soft-delete condition, or fails exactly when a predicate does |
| SqlUpdate.Updater.constructor | orm/updater.go:23-32 | A new updater requests nothing |
| SqlUpdate.Updater.VersionColumnExplicitlySet | orm/updater.go:265-283 | The loop finds exactly the explicit assignments of the version field |
| SqlUpdate.Updater.BuildAssign | orm/updater.go:55-72 | One assignment, from an expression or from the instance |
| SqlUpdate.Updater.BuildAssigns | orm/updater.go:51-73 | The loop over the assignments |
| SqlUpdate.Updater.BuildFieldList | orm/updater.go:91-112 | The loop with the first flag: every field but the version, separators right wherever the version stands |
| SqlUpdate.Updater.BuildFields | orm/updater.go:84-124 | The fields, then version=version+1, also when the version is the only field |
| SqlUpdate.Updater.BuildSets | orm/updater.go:49-124 | The SET list, or the error for an update with neither assignments nor instance |
| SqlUpdate.Updater.BuildVersion | orm/updater.go:135-150 | The version condition with the right connecting keyword and argument |
| SqlUpdate.Updater.BuildFilter | orm/updater.go:126-150 | The whole WHERE clause |
| SqlUpdate.Updater.Build | orm/updater.go:34-157 | Appends the whole statement to whatever the builder holds, or fails exactly as specified |
| SqlUpdate.Deleter.Build | orm/delete.go:17-58 | Appends the DELETE, or its rewriting for a soft-delete model |
| SqlUpdate.Deleter.BuildSoftDelete | orm/delete.go:63-84 | Appends the UPDATE a DELETE is rewritten to |
| SqlReadBack.AssembledReads | orm/updater.go:34-157 | Head, SET list and tail read back as one UPDATE; with no assignment, or a predicate assigned, the text is no statement |
| SqlReadBack.UpdateRoundTrip | orm/updater.go:34-157 | An UPDATE text parses to its assignments in order and its condition, every argument consumed by its own placeholder, if and only if it assigns something and no predicate other than a raw fragment |
| SqlReadBack.AssignedPredicateFails | orm/updater.go:48-58 | Counterexamples: assigning any predicate but a raw fragment builds a text that reads as no statement |
| SqlReadBack.ComparisonAssignedToColumn | orm/updater.go:48-58 | A case of it: a column assigned a comparison of itself |
| SqlReadBack.FullUpdateReads | orm/updater.go:84-157 | For every field order and position of the version, a full-value UPDATE parses to the other fields in order with their values, version only as version+1, and the final version condition with its argument |
| SqlReadBack.EachColumnOnce | orm/updater.go:84-124 | That SET list names each column of the model exactly once |
| SqlReadBack.DeleteRoundTrip | orm/delete.go:17-84 | A DELETE text parses to a DELETE, or for a soft-delete model to an UPDATE of the deleted column alone, with the specified condition |
| OptimisticLock.StatementIs | orm/updater.go:34-157 | What the database runs for a request is what the request asked for |
| OptimisticLock.AssignsField | orm/updater.go:48-73 | Of several explicit assignments of a field the last one stands, with its value taken from the row before the update, and a field not assigned stays |
| OptimisticLock.StepVersion | orm/updater.go:77-150 | A statement that hits a row makes its version the value of its last explicit assignment of the version, or else one more if it is an Update(val), or else leaves it; one that does not hit leaves it |
| OptimisticLock.UpdateField | orm/updater.go:48-83 | The same for a whole update with assignments, its automatic version bump included |
| OptimisticLock.UpdateSetsFields | orm/updater.go:34-157 | An update with assignments, from the request over its text to the rows: every field of a row it hits gets its last assignment, or is the version of an Update(val) and gets one more, or stays; rows it does not hit stay |
| OptimisticLock.DeleteRemovesExactly | orm/delete.go:17-58 | Without a soft-delete column and a lone OR, a DELETE removes exactly the rows that satisfy every predicate and changes no other |
| OptimisticLock.NothingToSet | orm/updater.go:84-87 | An update that would set nothing runs no statement |
| OptimisticLock.HitExactly | orm/builder.go:184-203 | Unless the where is a lone OR, a statement hits exactly the rows it is meant for |
| OptimisticLock.HitHasHeldVersion | orm/updater.go:135-150 | Unless the where is a lone OR, a row hit by an Update(val) is live, matches the where and has the version the instance holds |
| OptimisticLock.MatchingRowIsHit | orm/updater.go:135-150 | Conversely every such row is hit, again for wheres other than a lone OR |
| OptimisticLock.VersionCountsWins | orm/updater.go:77-150 | Over every interleaving of updates and deletes in which no explicit assignment of the version hits the row, the row's version rises by exactly the number of Update(val) executions that hit it |
| OptimisticLock.VersionSinceAssigned | orm/updater.go:77-150 | In every other run the version is what the last such assignment gave it plus the number of Update(val) executions that hit the row after it |
| OptimisticLock.NoLostUpdate | orm/updater.go:131-150 | In a run without an explicit assignment of the row's version, an Update(val) whose where is no lone OR hits a live, matching row that had the version the instance holds if and only if no other Update(val) has hit the row since |
| OptimisticLock.SameVersionTwiceExactly | orm/updater.go:77-150 | Of two Update(val) that hold the same version the second still hits a live, matching row after the first if and only if the first assigned the version the value it held |
| LostUpdates.PinnedUpdateIsLost | orm/optimistic_lock_test.go:150-170 | Counterexamples, in every table: an Update(val) that sets a field and assigns the version the value it holds leaves the version, and a full-value update of the same instance then succeeds and undoes it |
| LostUpdates.PinnedRenameIsLost | orm/updater.go:77-83 | The same as a run on user 1: a rename that assigns its version is undone by an update of the same version |
| LostUpdates.UnchangedSinceRead | orm/updater.go:74-83 | When an Update(val) hits a row that had the version the instance holds, the row is unchanged since, unless an explicit assignment of its version or an update without an instance hit it in between |
| LostUpdates.FullUpdateOverwrites | orm/updater.go:84-124 | A full-value update makes every column of a row it hits that of the instance, and raises the version |
| LostUpdates.BatchUpdateIsLostExactly | orm/updater.go:74-83 | After an update without an instance a full-value update from an instance read before it still hits the row if and only if the row is live, matches, and was not assigned another version; then nothing of the other update is left in any column of the model |
| LostUpdates.RenameIsLost | orm/updater.go:74-83 | Counterexample run: a rename without an instance between the read and the full-value update, which still succeeds and undoes it |
| OptimisticLock.WinnersHoldDifferentVersions | orm/updater.go:131-150 | Of two updates, with wheres other than a lone OR, that hit the same row in a run the later holds the greater version, unless the version was assigned explicitly from the first on: at most one update holding version v succeeds |
| OptimisticLock.ConflictExactly | orm/updater.go:238-245 | Unless the where is a lone OR, a conflict is reported if and only if no live row of the held version matches the where, and then nothing changes |
| OptimisticLock.OthersNeverConflict | orm/updater.go:238-245 | Only an Update(val) of a model with a version can be a conflict; everything else succeeds, unless it sets nothing |
| OptimisticLock.StaleConflicts | orm/updater.go:238-245 | So a single-row update, its where no lone OR, whose version is not the row's is a conflict |
| OptimisticLock.RetryConflicts | orm/updater.go:238-245 | Executing a successful single-row update again, its where no lone OR, is a conflict, whatever ran in between, unless it or something in between assigned the version explicitly |
| OptimisticLock.FreshUpdateSucceedsExactly | orm/updater.go:288-302 | An update from an instance just read, its where no lone OR, hits its live, matching row if and only if the version is below 2^63, since it is sent as a signed number |
| LostUpdates.WideVersionConflicts | orm/updater.go:288-302 | Counterexamples: for every version of 2^63 or more such an update is a conflict although nothing else ran |
| OptimisticLock.DeletedRowIsFrozen | orm/delete.go:63-84 | A soft-deleted row is unchanged after every run of updates and deletes without a lone OR |
| OptimisticLock.StaleHitExactly | orm/updater.go:137-143 | With a lone OR an update hits a row of another version if and only if the row is live and matches the left side |
| OptimisticLock.DeletedHitExactly | orm/builder.go:184-203 | A deleted row is hit if and only if the where is a lone OR whose right side it matches, the version included if one is checked; every other statement leaves it as it is |
| LostUpdates.LoneOrLosesAnUpdate | orm/updater.go:137-143 | Counterexamples: through id=1 OR id=2 every stale instance overwrites row 1, whose version still rises by one |
| LostUpdates.LoneOrDeletesTwice | orm/builder.go:196-200 | Counterexamples: a DELETE with id=1 OR id=2 replaces the deletion time of an already deleted row 2 |
| LostUpdates.UserExists | orm/updater.go:14-21 | The tables, rows and instances of these counterexamples exist |

## Left out

- Sockets, TLS, deadlines, DNS, gRPC, etcd, the SQL driver and row scanning: input and output; their success or failure is a step or a parameter. Clocks are parameters.
- Redis cache and lock: their scripts decide the behaviour and are not part of this model.
- Upsert emission, SELECT lists, joins, GROUP BY, INSERT: they would add further printers of the same kind.
- Other balancers, other web middleware, RPC proxies, generated code: easy members, or reflection.
- The timers of pools and streams, fairness and liveness: safety is stated, and of a shutdown that it can always still return, not that it will.
- Accounting of the connection pool after Release, its statistics counters, and callers that use a lease twice.
- Survival of handler contexts during a drain: the deferred cancel runs before the wait.
- RateLimit: time and tokens are reals, so rounding of floats is not modelled.
- Router: nodes are entries of a list and pointers are positions in it; a regular expression is an abstract predicate; findRoute, which chooses the method tree and reports other allowed methods, is not modelled.
- Cache: the eviction callback, Close and the computation of byte sizes are not modelled; the background sweep is a sequence of deletes.
- Multiplexer: wrap-around of the 64-bit id counter is not modelled.
- Raw SQL fragments are one opaque symbol with a number of placeholders; what they contain is the user's concern and their truth is a parameter.
- SqlNested.TreeRoundTripExactly: stated over known fields, with raw fragments whose placeholders and arguments agree in number and without aliased aggregates, which are no SQL in a condition.
- SqlBuilder.PredicateRoundTrip: comparisons of operands only, as are the conditions of whole statements; comparisons with a predicate are the subject of SqlNested.TreeRoundTripExactly.
- RateLimit.Limiter.GetOrCreateBucket: one request at a time; interleaved requests are the subject of RateLimitRace and RateLimitBound.
- RateLimit.Limiter.Handle: one request at a time; interleaved requests are the subject of RateLimitRace and RateLimitBound.
- SqlReadBack.UpdateRoundTrip: statements are those of ISO/IEC 9075:1992, where a predicate is no value; a dialect that reads a=b=1 as an assignment of a truth value is not modelled.
- OptimisticLock: one statement is atomic, the time of a deletion is not NULL, right sides are taken from the row before the update, RowsAffected counts the rows the condition selects, column overflow is not modelled, hooks and the filling of UpdatedAt are left out, and statements go to the model's own table, without From. The version and soft-delete fields are different fields, and column names are distinct.
- OptimisticLock.RetryConflicts: requires that the caller's condition matches no other row, since an update that hits another row is no conflict.
- SqlUpdate.Updater.Build: an assignment from an instance when there is none counts as an error, as with the unsafe valuer; the reflecting one panics.
