# Verified model of the flux cores

flux is an asynchronous C++ stack: a runtime with a message bus and a semaphore,
protocol clients with connection pools, and a web framework with a
dependency-injection container, a router and middleware. This project models the
in-memory state machines and the text transforms of that stack and proves what they
are for. Sockets, timers and the sender machinery appear only as an environment that
may take any step at any time.

- **Dependency injection** (`Injection`, `InjectionTheorems`, `MemberGraph`,
  `DiContainer`). The
  recursive, caching resolver with its in-progress set is a state-passing function and
  a class proved equal to it. Resolution always terminates and succeeds exactly when no
  walk of the dependency graph meets a cycle, a failing factory, a transient asked for
  by reference or a member that cannot be assigned; over any history of resolutions
  each singleton is made once and stays the same.
- **Semaphore and pools** (`Semaphore`, `SemaphoreProtocol`,
  `SemaphoreProgress`, `Pool`, `PoolCapacity`, `PoolProgress`). The intrusive
  waiter list is a heap-level class that refines a FIFO sequence. Every lock-protected
  section and every atomic exchange is a step; in every interleaving the permits are
  accounted for, waiters are served in order, nobody is answered twice, the pool's
  "internal state invalid" branch is unreachable and no slot has two owners.
- **Message bus and mailbox** (`Topic`, `TopicProgress`, `TopicTable`, `Bus`,
  `MailboxModel`). Each
  subscriber sees one contiguous run of the topic's order; a closed name never comes
  back; end of stream is final although the mailbox is closed without its lock.
- **Printers and parsers** (`HttpWire`, `HttpResponse`, `HttpMeaning`, `HttpLimits`,
  `Multipart`, `MultipartTheorems`, `SqlRewrite`, `SqlTokens`, `Resp3`). The parsers undo the printers: chunk
  streams, whole responses, multipart bodies, flattened RESP3 replies; the `?` to `$n`
  rewrite agrees with the placeholder counter and with substitution.
- **Smaller cores** (`RateLimit`, `Router`, `RouterTraces`, `RouterTheorems`, `Watch`).

Where the source loops or updates fields the model is a method or a class proved
against a specification function; the theorems are about those functions. In a protocol
a step that is not enabled leaves the state as it is, so a theorem about all step
sequences is a theorem about all interleavings.

Six things the proofs brought out about the code:

- A request leaves an auto-binding behind, successful or not, and a member of class type
  is injected only when its type has a binding at that moment, as keyed injection prefers
  the keyed service only once that is bound. So one request can break another service
  (`FailedRequestCanBreakAnother`) or repair it (`RequestCanRepairAnother`).
  `OneRequestDecides` says exactly what happens: afterwards a service resolves if and
  only if nothing bad is reachable in the graph that has the requested service bound.
  The exactness theorems ask for `SettledFrom`: whatever the presence tests of the
  service's own dependencies look for is bound already or is no service of the program,
  such as the type of a string member. What the rest of the program tests for does not
  matter. Graphs whose factories ask for shared services only are settled from the start
  (`PlainSharedGraphs`). For a new container the answer is told from the declared members
  of the types alone (`NewContainersAreExact`).
- A permit can be handed to a waiter whose stop request wins the race; it then reaches
  nobody (`GrantsCanBeLost`). With no completion in flight it is delivered if and only
  if the operation was not stopped (`GrantsReachUnlessStopped`), and an operation nobody
  asks to stop always receives it (`UnstoppedGrantsArrive`). For a pool that means:
  stops and timeouts are the only things that cost capacity (`CapacityAccounts`,
  `CalmPoolsLoseNothing`).
- The rewriter and the counter of SQL placeholders part ways at a quotation mark inside
  backticks and at a double quote escaped by a backslash. Up to there, markers match the
  count if and only if no placeholder stands in backticks; on any text they differ by the
  placeholders only one scanner sees (`MarkersMatchTheCount`), and any
  text that goes past such a point begins with a text that can be continued so that
  they disagree (`OutOfStepTextsDisagree`).
- A part whose name or file name contains `Content-Type:` loses its content type, and
  no other clean part does (`PartRoundTrip`); quotes and backslashes in a token are
  escaped but never unescaped (`TokenSurvives`); with an empty boundary the parser never
  returns (`MultipartRoundTrip`).
- The `Allow` list of a 405 answer can miss a method that is served
  (`ListCanMissAMethod`): the first sub-router with anything to offer decides it. It is
  complete if and only if every handler table the path leads to keeps to the listed
  methods and none has a handler for all methods (`ListIsComplete`).
- The rate limiter's remaining count is right if and only if a window is open, or both
  `max_requests` and the window length are positive (`RemainingPredicts`): a limit of
  zero still admits one request per window, and a window of no length admits them all.

`dafny verify dfyconfig.toml` checks the whole project.

## Model

| member | source | states |
|---|---|---|
| Injection.ResolveShared | layer3/include/async_uv_layer3/di.hpp:330-353 | Terminates for every finite program and every in-progress set; bindings are only added, never dropped or rewritten, and a cached instance never changes, whether the call succeeds or throws |
| Injection.ResolveRef | layer3/include/async_uv_layer3/di.hpp:356-378 | The same for resolution by reference |
| Injection.RunSteps | layer3/include/async_uv_layer3/di.hpp:252-279 | The same for the calls a factory or member injection makes, up to the first that throws |
| Injection.RunStep | layer3/include/async_uv_layer3/di.hpp:426-451 | The same for one injected member or one call of a factory |
| InjectionTheorems.FailureExhibited | layer3/include/async_uv_layer3/di.hpp:330-353 | Every failure within a settled part of the graph is backed by a walk that ends in the reported cause |
| InjectionTheorems.SuccessSound | layer3/include/async_uv_layer3/di.hpp:338-352 | Whatever is requested, a cached singleton of a settled part of the graph never reaches a cycle or a failing dependency, also after failed resolutions |
| InjectionTheorems.ResolutionIsExact | layer3/include/async_uv_layer3/di.hpp:319-390 | In either mode, for a service whose own dependencies have settled presence tests, a request succeeds if and only if nothing bad is reachable and a reference is not to a transient; every reported error is explained by the graph |
| InjectionTheorems.SharedResolutionDetectsCycles | layer3/include/async_uv_layer3/di.hpp:185-209 | If what the service depends on has shared edges and producing factories, resolution succeeds if and only if no cycle is reachable, cached singletons and registered instances being leaves and members of non-service class types left alone |
| InjectionTheorems.PlainSharedGraphs | layer3/include/async_uv_layer3/di.hpp:329-353 | The same with no condition on the bindings when those factories ask by type and key only |
| MemberGraph.InjectionFollowsMembers | layer3/include/async_uv_layer3/di.hpp:252-279 | Injecting an object, with any key and bindings, asks exactly for what its declared members want, each in its mode, and fails exactly at a member that cannot be filled in |
| MemberGraph.FactoriesAskForWhatTheyName | layer3/include/async_uv_layer3/di.hpp:392-406 | A factory that makes plain calls has edges exactly to the services it names |
| MemberGraph.UnregisteredFollowsMembers | layer3/include/async_uv_layer3/di.hpp:319-327 | The edges of a service nobody registered are what the members of its type want |
| MemberGraph.NewContainersAreExact | layer3/include/async_uv_layer3/di.hpp:380-390 | In either mode, a new container builds a service if and only if no chain of members leads into a cycle or to a type that cannot be built |
| MemberGraph.NewContainersDetectCycles | layer3/include/async_uv_layer3/di.hpp:185-209 | If every type can be built, a service resolves if and only if its members, shared and raw pointers and aggregates, do not lead into a cycle |
| InjectionTheorems.InstancesBreakCycles | layer3/include/async_uv_layer3/di.hpp:282-297 | After registering an instance for a service, buildable or not, exactly those services resolve whose reachable cycles all pass through it |
| InjectionTheorems.HistoryDoesNotMatter | layer3/include/async_uv_layer3/di.hpp:330-378 | Whether such a request succeeds, in either mode, does not depend on any earlier requests for any services, in either mode, successful or failed |
| InjectionTheorems.OneRequestDecides | layer3/include/async_uv_layer3/di.hpp:330-378 | After any history that starts with a request for one service, another resolves if and only if nothing bad is reachable from it in the graph that has the first bound |
| InjectionTheorems.OneRequestBreaksAnother | layer3/include/async_uv_layer3/di.hpp:271-275 | If an unbuilt service would ask for an unbound one as soon as that is bound, and the latter does not resolve, one request for the latter breaks the former |
| DiContainer.FactoriesCompleteAtMostOnce | layer3/include/async_uv_layer3/di.hpp:338-352 | Over any history of resolutions each singleton factory completes at most once |
| DiContainer.SingletonsKeepTheirInstance | layer3/include/async_uv_layer3/di.hpp:338-378 | Once resolved, a singleton yields the same instance in either mode after any history, and asking for it changes nothing |
| DiContainer.UnregisteredServicesAreShared | layer3/include/async_uv_layer3/di.hpp:319-353 | A service nobody registered is made once and returned ever after, in either mode |
| DiContainer.TransientsAreFresh | layer3/include/async_uv_layer3/di.hpp:338-352 | A transient is a new instance every time, one no binding holds |
| DiContainer.FailedRequestCanBreakAnother | layer3/include/async_uv_layer3/di.hpp:271-275 | A concrete program in which one failed request makes another service fail |
| DiContainer.QuirkHost | layer3/include/async_uv_layer3/di.hpp:271-275 | In that program, whether the host resolves is decided by whether its member's type happens to be bound |
| DiContainer.RequestCanRepairAnother | layer3/include/async_uv_layer3/di.hpp:429-434 | A concrete program in which a service fails until somebody has asked for the keyed version of its dependency |
| DiContainer.FallbackHost | layer3/include/async_uv_layer3/di.hpp:429-434 | For any such host: with a throwing default service it resolves if and only if the keyed one is there |
| DiContainer.Container.ResolveSharedImpl | layer3/include/async_uv_layer3/di.hpp:330-353 | The method with its side effects computes `ResolveShared`, and the in-progress set is restored on every exit |
| DiContainer.Container.ResolveRefImpl | layer3/include/async_uv_layer3/di.hpp:356-378 | The same for resolution by reference |
| DiContainer.Container.RunFactory | layer3/include/async_uv_layer3/di.hpp:252-279 | Running a factory's calls in order computes `RunSteps` and restores the in-progress set |
| DiContainer.Container.RegisterInstance | layer3/include/async_uv_layer3/di.hpp:282-297 | Accepts any non-null instance at any time, refuses null, and keeps the tables consistent |
| DiContainer.RegisterAndResolve | layer3/include/async_uv_layer3/di.hpp:282-353 | On a container, new or used: after registering an instance for any service, another resolves if and only if no cycle avoiding the first is reachable from it |
| DiContainer.Container.RegisterFactory | layer3/include/async_uv_layer3/di.hpp:300-317 | Installs an uncached binding and keeps the tables consistent |
| Semaphore.SectionsKeepConsistency | include/flux/async_semaphore.h:34-85 | Permits above zero exclude waiters, closed excludes both; `release` gives away exactly the released permits, to the front of the queue |
| Semaphore.ReleaseOneMore | include/flux/async_semaphore.h:48-57 | One more permit pops one more waiter, or is added when none waits |
| Semaphore.AsyncSemaphore.EnqueueWaiter | include/flux/async_semaphore.h:101-111 | The links refine appending to a sequence |
| Semaphore.AsyncSemaphore.RemoveWaiter | include/flux/async_semaphore.h:113-130 | Removes the node at head, middle or tail and keeps the order of the others; an absent node changes nothing |
| Semaphore.AsyncSemaphore.PopFrontWaiter | include/flux/async_semaphore.h:132-147 | Pops the longest waiting node and keeps head, tail, links and `queued` flags consistent |
| Semaphore.AsyncSemaphore.ReleasePermits | include/flux/async_semaphore.h:34-58 | The pointer loop computes `Release` on the abstract queue |
| Semaphore.AsyncSemaphore.CloseAll | include/flux/async_semaphore.h:65-80 | Closing empties the queue in order and zeroes the permits |
| Semaphore.AsyncSemaphore.AcquireOrEnqueue | include/flux/async_semaphore.h:260-273 | Denied when closed, granted from a permit, queued at the end otherwise |
| SemaphoreProtocol.PermitsAreAccountedFor | include/flux/async_semaphore.h:34-85 | In every run: permits exclude waiters, closed means neither, and until close permits, immediate grants and popped waiters add up to the initial and released permits |
| SemaphoreProtocol.WaitersAreServedInOrder | include/flux/async_semaphore.h:208-286 | In every run waiters are popped in arrival order among those that did not give up |
| SemaphoreProtocol.OperationsAreAnsweredOnce | include/flux/async_semaphore.h:208-286 | Under racing grant, close and stop no operation is answered twice, a grant was paid for with a permit, and with nothing in flight every operation is answered once or still queued |
| SemaphoreProtocol.CompletedOperationsAreDetached | include/flux/async_semaphore.h:195-206 | The destructor's detach finds a completed operation in no queue |
| SemaphoreProtocol.GrantsCanBeLost | include/flux/async_semaphore.h:236-242 | A concrete run in which a popped grant is delivered to nobody |
| SemaphoreProtocol.GrantsReachUnlessStopped | include/flux/async_semaphore.h:208-242 | In every run with nothing in flight, a granted permit was delivered if and only if the operation was not stopped |
| SemaphoreProtocol.UnstoppedGrantsArrive | include/flux/async_semaphore.h:208-286 | In every run, an operation nobody asked to stop receives the permit it was given |
| SemaphoreProgress.StartIsExact | include/flux/async_semaphore.h:244-286 | From every reachable state: starting is refused when closed, granted from an idle permit, queued behind all others otherwise |
| SemaphoreProgress.ReleaseIsExact | include/flux/async_semaphore.h:34-63 | From every reachable open state: one permit completes the longest waiting operation, or stays idle if none waits |
| SemaphoreProgress.StopIsExact | include/flux/async_semaphore.h:236-254 | From every reachable state: a stop request takes a waiting operation out and completes it, and one started after its stop completes at once |
| SemaphoreProgress.ClosingAnswersEverybody | include/flux/async_semaphore.h:65-85 | From every reachable state: after close and the completions on their way, every started operation has exactly one answer |
| Pool.PoolImpl.TakeLocked | layer2/src/sql.cpp:1952-1968 | Takes the oldest free slot, or reports closed, or the invalid state |
| Pool.PoolImpl.ReleaseIndexLocked | layer2/src/sql.cpp:2045-2057 | Puts a slot back and asks for a signal exactly while the pool is open |
| Pool.PoolImpl.CloseLocked | layer2/src/redis.cpp:1099-1109 | Closing forgets every free slot |
| Pool.PooledConnection.Release | layer2/src/sql.cpp:2201-2207 | A lease gives its slot back at most once |
| Pool.PooledConnection.Assign | layer2/src/sql.cpp:2183-2195 | Move assignment returns its own slot if it held one, takes over the other's and leaves the other empty; no other pool changes; self-assignment changes nothing |
| Pool.ReleaseIsAStep | layer2/src/sql.cpp:2201-2207 | Releasing a lease object is the protocol's release step |
| Pool.AssignIsTwoSteps | layer2/src/sql.cpp:2183-2195 | Move assignment of lease objects is the protocol's release followed by its move |
| Pool.FreeSlotsCover | layer2/src/redis.cpp:881-964 | While open, free slots are exactly permits plus grants not yet taken plus signals in flight, and a task with a grant finds a slot |
| Pool.NextInv | layer2/src/sql.cpp:1951-2057 | Every acquire, take, give-up, put-back, hand-over, move, release, signal and close step keeps the pool invariant |
| Pool.InternalStateIsNeverInvalid | layer2/src/sql.cpp:1961-1964 | In every interleaving the "internal state invalid" branch is not reached |
| Pool.SlotsMatchPermits | layer2/src/redis.cpp:1008-1020 | In every interleaving of an open pool the two counters under different locks stay matched |
| Pool.SlotsHaveOneOwner | layer2/src/sql.cpp:2165-2207 | In every interleaving the free list has no duplicates, indices are in range, and each slot is free, in use by one task, held by one lease or lost, never two of these |
| PoolCapacity.CapacityAccounts | layer2/src/sql.cpp:1970-1999 | In every interleaving of an open pool, free slots beyond the idle permits are matched by signals and grants on their way, grants lost to a stop and grants given up at a timeout |
| PoolCapacity.CalmPoolsLoseNothing | layer2/src/sql.cpp:1951-2057 | Without stops, timeouts and dropped tasks an open pool keeps every slot usable: free, in use or leased, each free one matched by a permit, signal or grant |
| PoolProgress.BorrowTakesTheOldest | layer2/src/sql.cpp:1951-1968 | From every reachable open state with an idle permit, an acquiring task ends up with the oldest free slot |
| PoolProgress.ReturnGoesToTheBack | layer2/src/sql.cpp:2045-2057 | A slot put back, or leased and released, goes behind the other free slots and its signal is on its way |
| PoolProgress.SignalIsExact | layer2/src/sql.cpp:2054-2056 | The signal grants the first waiting task, or leaves one permit more |
| PoolProgress.GivenUpIsOver | layer2/src/sql.cpp:1986-1993 | A task whose timeout won takes no slot with its grant |
| PoolProgress.CreateIsExact | layer2/src/sql.cpp:1910-1929 | A new pool has every slot free, in order, and as many permits; an empty one is refused |
| PoolProgress.WaitersGetReturnedSlots | layer2/src/sql.cpp:1951-1999 | From every reachable open state with a waiting task, returning a lease gives the first one a slot |
| PoolProgress.ClosingIsExact | layer2/src/sql.cpp:2131-2148 | Closing forgets the free slots and then closes the semaphore |
| PoolProgress.ClosedPoolsServeNobody | layer2/src/sql.cpp:1957-1960 | After closing nobody obtains a slot, whatever happens |
| Topic.SubscribersSeeContiguousRuns | include/flux/message.h:208-275 | In every interleaving the payloads pushed to a subscriber are one contiguous run of the order the topic accepted, and what it read is a prefix of that |
| Topic.OpenSubscribersMissNothing | include/flux/message.h:236-275 | Whenever the dispatcher is idle, a subscriber still open has everything received since it was added, and at most one message from before |
| Topic.OneDispatcherInOrder | include/flux/message.h:208-234 | However many threads race to start it, there is one dispatch loop, and it receives in acceptance order |
| Topic.ClosedSubscribersStaySilent | include/flux/message.h:183-206 | A closed subscriber never reopens: nothing is pushed to it again |
| Topic.NextInv | include/flux/message.h:153-275 | Every publish, dispatch, subscribe, consume and close step keeps the topic invariant |
| TopicProgress.PublishIsExact | include/flux/message.h:478-493 | An open topic with room accepts a message, at the end; no other does |
| TopicProgress.SubscribersStartReady | include/flux/message.h:153-162 | A new subscriber is registered, open and empty, and disturbs no other |
| TopicProgress.MessagesGetThrough | include/flux/message.h:217-275 | From every reachable state whose dispatcher has not ended, dispatcher and consumers can go on until nothing is left and a given open subscriber has read every message accepted since it joined, in order |
| TopicProgress.ClosedTopicsAcceptNothing | include/flux/message.h:200-206 | Once its ingress is closed a topic accepts nothing more |
| TopicProgress.ClosingSilences | include/flux/message.h:300-308 | Closing a subscriber's channel silences it for good |
| TopicProgress.FlagSilences | include/flux/message.h:236-250 | The closed flag alone, set while no send to the subscriber is on its way, keeps every later message from it |
| TopicProgress.LoopsEndWhenClosed | include/flux/message.h:217-230 | A waiting dispatch loop ends if and only if the ingress is closed |
| TopicProgress.RemovedAreForgotten | include/flux/message.h:164-181 | A subscriber removed or gone between two fan-outs is never served again |
| TopicTable.TopicState.CollectSubscribers | include/flux/message.h:169-181 | The loop over weak references returns exactly the registered live subscribers, prunes the rest, and is the collecting step of the topic machine |
| TopicTable.TopicState.AddSubscriber | include/flux/message.h:153-162 | Subscribing is the machine's step: a fresh id, registered |
| TopicTable.TopicState.RemoveSubscriber | include/flux/message.h:164-167 | Removal is the machine's step |
| TopicTable.TopicState.MarkDispatcherStarted | include/flux/message.h:208-215 | Exactly the first caller is told to start the loop |
| Bus.BusState.GetOrCreateTopic | include/flux/message.h:495-521 | Refused when the bus or the name is closed, otherwise the one topic of that name |
| Bus.BusState.CloseTopicName | include/flux/message.h:422-436 | Closes a name for good and returns the topic that must now be closed |
| Bus.BusState.SetClosed | include/flux/message.h:438-441 | Only the first caller of `close` goes on |
| Bus.BusState.DrainTopics | include/flux/message.h:443-451 | Collects every topic and empties both tables |
| Bus.ClosedBusLeaksNoTopic | include/flux/message.h:438-455 | After `close` has drained the table every topic ever made was handed to somebody to close, and no lookup makes another |
| Bus.ClosedNamesNeverReopen | include/flux/message.h:422-455 | A closed name never stands for a topic again, although closing the bus forgets the closed names |
| Bus.SameNameSameTopic | include/flux/message.h:495-521 | Two lookups of one name give the same answer as long as nobody closes that name or the bus in between |
| Bus.DifferentNamesDifferentTopics | include/flux/message.h:495-521 | In every history lookups of different names never give the same topic |
| Bus.RefusedExactly | include/flux/message.h:495-510 | In every history a lookup is refused if and only if the bus or that name was closed before |
| MailboxModel.Mailbox.TrySend | include/flux/message.h:708-721 | Accepts exactly when open and below capacity, at the end of the queue |
| MailboxModel.Mailbox.Poll | include/flux/message.h:770-779 | The oldest message, or the end of the stream when closed and empty |
| MailboxModel.SendIsFourSteps | include/flux/message.h:708-721 | An undisturbed `try_send` on the object is four steps of the protocol, with the same acceptance |
| MailboxModel.PollIsThreeSteps | include/flux/message.h:770-779 | An undisturbed round of `recv` on the object is three steps of the protocol, with the same result |
| MailboxModel.TimedSendsKeepTrying | include/flux/message.h:723-742 | A timed send keeps its message while there is no room, and has it accepted in the first undisturbed round with room |
| MailboxModel.MessagesKeepTheirOrder | include/flux/message.h:706-742 | In every interleaving receipt order is acceptance order and the queue stays within capacity |
| MailboxModel.EndOfStreamIsFinal | include/flux/message.h:764-788 | Once a receiver saw the end, everything accepted was received and nothing is ever accepted or received again, although `close` takes no lock |
| SqlRewrite.RewriteQmarkToDollar | layer2/src/sql.cpp:362-406 | The flag-driven loop computes the recursive rewrite |
| SqlRewrite.CountPlaceholders | layer2/src/sql.cpp:408-441 | The flag-driven loop computes the recursive count |
| SqlRewrite.RewriteNumbersPlaceholders | layer2/src/sql.cpp:362-406 | The text is cut at its placeholders; the output is the same pieces joined by markers numbered left to right, all other text untouched |
| SqlRewrite.MarkersMatchTheCount | layer2/src/sql.cpp:408-441 | On every text markers and count differ by the placeholders only one scanner sees; while no quotation mark in backticks and no escaped double quote splits the scanners, they match if and only if no placeholder stands in backticks |
| SqlRewrite.PlainTextIsCounted | layer2/src/sql.cpp:1263-1272 | Without unquoted backticks and without backslashes in double quotes there are exactly as many markers as the counter counts |
| SqlRewrite.OutOfStepTextsDisagree | layer2/src/sql.cpp:408-441 | Every text that splits the scanners has a beginning that does, with a continuation on which they disagree |
| SqlRewrite.FillingRewrittenText | layer2/src/sql.cpp:1263-1272 | With no unquoted `$` and no digit after a placeholder, filling `$k` with parameter k equals filling the k-th `?` |
| SqlTokens.TokensAreHandled | layer2/src/sql.cpp:362-441 | On text put together from string literals with escapes, quoted identifiers, backticked names and other characters, exactly the placeholders outside literals and identifiers are numbered, and exactly those outside backticks as well are counted |
| SqlRewrite.BackticksAreSeenByOneScannerOnly | layer2/src/sql.cpp:432-435 | A placeholder in backticks is rewritten and not counted |
| SqlRewrite.BackslashesSplitTheScanners | layer2/src/sql.cpp:420-423 | After a backslash in double quotes the two scanners disagree |
| Resp3.ParseNode | layer2/src/redis.cpp:161-234 | On any node list, truncated ones included, decoding terminates, advances, and stays within bounds |
| Resp3.ParseRespNode | layer2/src/redis.cpp:161-234 | The loop over the shared index computes the recursive decoder |
| Resp3.ConvertResponse | layer2/src/redis.cpp:236-252 | An error response is an error, an empty list is null, anything else is the reply at index zero |
| Resp3.DecodeFlattened | layer2/src/redis.cpp:208-226 | Decoding the pre-order flattening of any reply tree gives that tree's reply and advances by exactly its node count, two children per entry of maps and attributes |
| Resp3.ReplyRoundTrip | layer2/src/redis.cpp:161-234 | Every reply, however nested, comes back from the nodes it was sent as, and nothing behind it is touched |
| Resp3.OtherLeaves | layer2/src/redis.cpp:181-211 | The remaining leaf kinds: text stays text, errors stay errors, booleans become one and zero |
| Resp3.AggregatesCount | layer2/src/redis.cpp:212-225 | Every aggregate kind decodes to an array of its size, twice the size for maps and attributes |
| Resp3.JunkNumbersAreZero | layer2/src/redis.cpp:149-156 | A number text with anything but digits behind an optional minus sign reads as zero |
| Resp3.NumbersSurvive | layer2/src/redis.cpp:137-159 | Every printed integer decodes to itself, staying within signed 64 bits if and only if its magnitude does |
| Resp3.ReadingFitsExactly | layer2/src/redis.cpp:137-159 | Reading stays within signed 64 bits if and only if the magnitude does, which leaves out the smallest 64-bit integer |
| HttpWire.HeaderLineRoundTrip | layer2/src/parser.cpp:259-277 | A well-formed field survives printing and parsing |
| HttpWire.ParseInitialHeaders | layer2/src/parser.cpp:293-319 | The position loop computes the recursive header-block parser, limits and errors included |
| HttpWire.ParseChunkedTrailers | layer2/src/parser.cpp:333-395 | The position loop computes the recursive chunk walker |
| HttpWire.ParseTrailers | layer2/src/parser.cpp:364-384 | The trailer loop computes the recursive one |
| HttpWire.SocketStreamWriter.Write | layer3/include/async_uv_layer3/stream.hpp:29-36 | Sends one chunk, and nothing for an empty write or a closed or invalid stream |
| HttpWire.SocketStreamWriter.Close | layer3/include/async_uv_layer3/stream.hpp:38-46 | Sends the terminator once |
| HttpWire.StreamAll | layer3/include/async_uv_layer3/stream.hpp:29-46 | Any writes followed by close put exactly their chunks and one terminator on the wire |
| HttpWire.WalkOneChunk | layer2/src/server.cpp:329-334 | The walker reads a serialised chunk of any bytes back and goes on behind it |
| HttpWire.SizeLine | layer2/src/parser.cpp:344-360 | The printed hexadecimal size reads back as the size |
| HttpWire.StreamRoundTrip | layer3/include/async_uv_layer3/stream.hpp:29-46 | For any writes, empty ones included, and close: the walker accepts, the chunk data concatenates to the written data, it stops exactly behind the terminator and finds no trailers |
| HttpLimits.SizesAreReadFreely | layer2/src/parser.cpp:344-361 | Chunk sizes are read in either case, and extensions are ignored |
| HttpLimits.SizesAreNumbers | layer2/src/parser.cpp:356-361 | A size is read up to the first character that is no digit; a text that begins with none, and a number of more than 64 bits, are refused |
| HttpLimits.SignsAndPrefixes | layer2/src/parser.cpp:356-361 | A minus sign wraps the size around; a plus sign and `0x` are skipped |
| HttpLimits.LinesAreFields | layer2/src/parser.cpp:259-277 | A line is a field if and only if a name that is not blank stands before its first colon; both sides are trimmed |
| HttpLimits.StreamWithTrailers | layer2/src/parser.cpp:364-384 | A chunked stream that ends with trailer fields gives back the data and then the fields |
| HttpLimits.TrailersComeBack | layer2/src/parser.cpp:364-384 | Trailer fields come back in order, or are refused exactly when there are too many |
| HttpLimits.LineLimitIsExact | layer2/src/parser.cpp:259-264 | A header line is refused for its length if and only if it is over the limit |
| HttpLimits.CountLimitIsExact | layer2/src/parser.cpp:293-319 | Well-formed fields are all read, or refused for their number if and only if there are too many |
| HttpResponse.SerializeResponse | layer2/src/server.cpp:286-327 | The appending serialiser computes the specification text |
| HttpResponse.ResponseRoundTrip | layer2/src/parser.cpp:464-489 | Cutting a serialised response at its first blank line and parsing gives the start line, the original fields followed by the derived ones, and exactly the payload |
| HttpMeaning.ParsedResponseMeans | layer2/src/server.cpp:286-327 | The parsed response says what was meant: version, status and reason; own fields first and not repeated; exactly one length field, reading as the length of what follows, if not chunked; chunked framing that walks back to the body otherwise; keep-alive if and only if asked for; no other fields |
| HttpLimits.ResponseOutcome | layer2/src/parser.cpp:279-291 | Against any limits and in any mode: too long a start line, a response where requests are expected and too many fields are refused in this order, and everything else is read |
| HttpLimits.StartLineDecides | layer2/src/parser.cpp:279-291 | For any head: too long a start line is refused first, then the wrong kind of message for the mode, then the header block decides |
| HttpLimits.NoFields | layer2/src/parser.cpp:473-487 | A head that is only a start line has no fields |
| HttpLimits.PartialHeadsWait | layer2/src/parser.cpp:464-472 | As long as any part of the blank line is missing the parser waits |
| HttpLimits.GarbageIsRefused | layer2/src/parser.cpp:466-470 | Where only responses are expected, anything else is refused after five characters |
| HttpResponse.ChunkedPayloadRoundTrip | layer2/src/server.cpp:316-322 | A chunked payload walks back to the body with nothing left over |
| TextLines.FirstBlankLine | layer2/src/parser.cpp:464-479 | The head ends exactly behind the last line, whatever the payload |
| Multipart.QuoteMultipartToken | layer2/src/http.cpp:356-366 | The loop computes the escaped token |
| Multipart.BuildMultipartBody | layer2/src/http.cpp:393-428 | The appending loop computes the body text |
| Multipart.TrimSpace | layer3/include/async_uv_layer3/multipart_parser.hpp:63-71 | The two shrinking loops trim both ends |
| Multipart.ParseContentDisposition | layer3/include/async_uv_layer3/multipart_parser.hpp:73-124 | The shrinking-view loop computes the parameter map, unterminated quotes and stray separators included |
| Multipart.ParseField | layer3/include/async_uv_layer3/multipart_parser.hpp:176-211 | Name, file name and content type are looked up in the headers of a part |
| Multipart.ReadPart | layer3/include/async_uv_layer3/multipart_parser.hpp:157-213 | A part is cut at its blank line and its data trimmed |
| Multipart.ParseMultipart | layer3/include/async_uv_layer3/multipart_parser.hpp:128-220 | The position loop computes the recursive parser; the iteration that would repeat forever is reported as `Looping` |
| MultipartTheorems.TokenSurvives | layer2/src/http.cpp:356-366 | A quoted token reads back as itself if and only if it holds no quote and no backslash |
| MultipartTheorems.PartRoundTrip | layer3/include/async_uv_layer3/multipart_parser.hpp:157-213 | A printed part parses to its name, file name and data, and to its content type if and only if neither token contains `Content-Type:` |
| MultipartTheorems.NextDelimiter | layer3/include/async_uv_layer3/multipart_parser.hpp:149-154 | The part ends at the next delimiter line, also where text and delimiter could overlap |
| MultipartTheorems.LfPartRoundTrip | layer3/include/async_uv_layer3/multipart_parser.hpp:159-174 | A part written with bare line feeds is read just the same |
| MultipartTheorems.UnquotedPair | layer3/include/async_uv_layer3/multipart_parser.hpp:108-117 | A parameter value without quotation marks ends at the next semicolon |
| MultipartTheorems.UnterminatedQuote | layer3/include/async_uv_layer3/multipart_parser.hpp:100-107 | A quotation mark that is never closed gives an empty value |
| MultipartTheorems.JunkIsSkipped | layer3/include/async_uv_layer3/multipart_parser.hpp:89-95 | Text without an equals sign is skipped up to the next semicolon |
| MultipartTheorems.SampleDisposition | layer2/src/http.cpp:400-409 | The disposition line, letter by letter |
| MultipartTheorems.SampleBody | layer2/src/http.cpp:393-428 | The layout of a body, letter by letter |
| MultipartTheorems.MultipartRoundTrip | layer3/include/async_uv_layer3/multipart_parser.hpp:128-220 | For a non-empty boundary the parser terminates on the built body and returns exactly the named parts, grouped by name in order; for the empty boundary it never returns |
| RateLimit.RateLimiter.CleanupExpired | layer3/include/async_uv_layer3/rate_limit.hpp:82-91 | The erasing loop keeps exactly the live entries |
| RateLimit.RateLimiter.Consume | layer3/include/async_uv_layer3/rate_limit.hpp:34-51 | Decision and new entries are those of the specification |
| RateLimit.RateLimiter.Left | layer3/include/async_uv_layer3/rate_limit.hpp:53-67 | The remaining count of the specification |
| RateLimit.PurgingChangesNothing | layer3/include/async_uv_layer3/rate_limit.hpp:82-91 | Under a monotone clock a limiter that never erases gives the same answers |
| RateLimit.CleanupsAreInvisible | layer3/include/async_uv_layer3/rate_limit.hpp:82-91 | Leaving out every cleanup call changes no decision and no remaining count |
| RateLimit.FixedWindows | layer3/include/async_uv_layer3/rate_limit.hpp:34-51 | The admitted requests of a key fall into windows of at most max(1, `max_requests`), each opened no earlier than the end of the one before |
| RateLimit.BurstsAreBounded | layer3/include/async_uv_layer3/rate_limit.hpp:34-51 | Any half-open interval as long as the window admits at most twice max(1, `max_requests`) |
| RateLimit.RefusedExactly | layer3/include/async_uv_layer3/rate_limit.hpp:34-51 | Over any history a request is refused if and only if the last window of its key is still running and already holds max(1, `max_requests`) |
| RateLimit.RemainingPredicts | layer3/include/async_uv_layer3/rate_limit.hpp:53-67 | `remaining` is the number of requests that still get through, if and only if a window is open or both the limit and the window length are positive |
| Router.Match | layer3/include/async_uv_layer3/router_node.hpp:135-200 | The first copy of the greedy walk computes `Walk` and then looks up the method, then `*` |
| Router.MatchNode | layer3/include/async_uv_layer3/router_node.hpp:202-271 | The second copy ends at the node the first one ends at |
| Router.TryMatch | layer3/include/async_uv_layer3/router_node.hpp:146-182 | The first fitting child of a kind, with what it consumes and captures |
| RouterTraces.MatchIsExact | layer3/include/async_uv_layer3/router_node.hpp:135-200 | A tree matches if and only if the path can be traced to a node with a handler: first fitting static child, else first parameter taking a non-empty slash-free segment, else first wildcard taking the rest; the captures are the pieces taken |
| RouterTraces.HopsRebuildThePath | layer3/include/async_uv_layer3/router_node.hpp:140-188 | The static prefixes and captured values put together are the path up to slashes |
| RouterTheorems.MatchRequest | layer3/src/router.cpp:264-288 | The loop over sub-routers computes the recursive match |
| RouterTheorems.AllowedMethods | layer3/src/router.cpp:290-327 | The listed methods are the allowed set, sorted and without duplicates |
| RouterTheorems.RegistrationKeepsRules | layer3/src/router.cpp:138-195 | Registration keeps keys upper-case and `*` alone, never replaces a handler, and makes the new one reachable |
| RouterTheorems.MatchIsAllowed | layer3/src/router.cpp:264-327 | Whatever matches, something is listed as allowed |
| RouterTheorems.AllowedMatches | layer3/src/router.cpp:264-327 | Each listed method matches, except a HEAD listed because GET is |
| RouterTheorems.AllowedIffMatched | layer3/src/app.cpp:188-208 | For every nest of routers and every path, nothing is allowed if and only if no method matches, so 404 and 405 are told apart correctly |
| RouterTheorems.MatchIsServed | layer3/src/router.cpp:264-288 | A method matches if and only if one of the handler tables the path leads to serves it |
| RouterTheorems.FirstTableDecides | layer3/src/router.cpp:264-288 | The handler is that of the first such table: sub-routers in order, own routes last |
| RouterTheorems.MethodsIgnoreCase | layer3/src/router.cpp:265 | The case in which a method is written makes no difference |
| RouterTheorems.PrefixIsWholeSegments | layer3/src/router.cpp:62-68 | A sub-router's prefix stands for whole segments |
| RouterTheorems.ListIsExact | layer3/src/router.cpp:290-327 | The first table that is not empty decides the list; a handler for all stands for the seven usual methods, and HEAD comes with GET |
| RouterTheorems.LastCaptureWins | layer3/src/router.cpp:279-282 | A parameter name stands for the last value captured under it |
| RouterTheorems.OnlyCapturedNames | layer3/src/router.cpp:279-282 | No parameter name occurs that was not captured |
| RouterTheorems.ListIsComplete | layer3/src/router.cpp:290-327 | The list names every matching method if and only if every handler table the path leads to keeps to listed methods and none has a handler for all |
| RouterTheorems.ListCanMissAMethod | layer3/src/router.cpp:294-303 | A sub-router serving GET hides that the root serves POST at the same path |
| Watch.State.TryPopPendingEvent | src/watch.cpp:124-156 | Pops the first whole record or nothing, compacts, and keeps the offset at most 2048 |
| Watch.State.Next | src/watch.cpp:206-280 | Returns the first record of the unread bytes followed by the reads it needed, and reads no more than that; if the watcher is closed during a read, that read is dropped and nothing is returned |
| Watch.PopTakesOne | src/watch.cpp:124-153 | Compaction never changes the unread bytes |
| Watch.BufferRefinesStream | src/watch.cpp:124-153 | After any interleaving, bytes popped plus bytes unread are all bytes read, and records popped plus records to come are the records of the plain stream |
| Watch.ReadSizesDoNotMatter | src/watch.cpp:206-280 | Once drained, the events depend on the total input only |
| Watch.EventsAreRead | src/watch.cpp:124-153 | Any events laid out as the kernel writes them are read back, name, mask and status each |

## Left out

- Sockets, TLS, DNS, files, timers, database and Redis client libraries, Boost.Beast and Boost.URL: foreign code. Channels are bounded FIFO queues with a close; the path normaliser of the router is an arbitrary function.
- The sender machinery, tasks, runtimes and the lifetime of operation states: no local property beyond completing once, which is proved for the semaphore.
- Factories that catch resolver errors, re-register bindings while resolving or decide their calls at run time: a factory is a fixed list of calls and an ending. The default and the keyed binding tables are one map indexed by type and key.
- InjectionTheorems.ResolutionIsExact: asks for `SettledFrom`, because a presence test made while resolving can change its answer (see `OneRequestDecides`).
- InjectionTheorems.HistoryDoesNotMatter: asks for `SettledFrom` for the same reason.
- `Unassignable` failures: in the source a member that is neither a pointer nor copy-assignable does not compile, because `resolve_member` then returns nothing to assign. The model keeps that failure as one more way for a step to fail; it never arises from compiled code.
- Pool: a lease's `held` flag is cleared together with the put-back; connection health checks and lifetimes are steps that keep the slot in use. A stopped task may drop a slot, so a slot may be lost but never owned twice.
- Topic: "every subscription ends closed" does not hold, since a subscriber may be added between the closed check and the closing of the topic; nothing is claimed about it.
- MailboxModel.Mailbox.Poll: one round of the polling loop of `recv`; the sleeping between rounds is left to the interleaving.
- HttpWire: machine-integer wrap-around when a chunk size near 2^64 is added to a position, and what Beast does with a message after the head has been split off.
- HttpResponse: the table of default reason phrases is a parameter; parsing of request lines and the other serialisers are not modelled.
- Resp3.NumbersSurvive: integers are unbounded in the model; outside the stated range signed overflow is undefined in the source.
- Multipart: files read from disk are part values; the boundary extraction of the middleware is a few lines of searching.
- Router: `add_child` is not modelled, and it is not claimed that a registered route is found again: after a shared prefix it goes on with the siblings instead of descending. The theorems hold for all trees whose handler tables keep the registration rules.
- Watch: the `ignored` flag, which is read through a pointer into the buffer after compaction, and the file snapshots attached to events. Fields are read little-endian.
- RateLimit: key extraction and response headers.
- Builders, option structs, error-kind and MIME tables, CORS and security headers, compression: tables and plain field settings without an invariant of their own.
