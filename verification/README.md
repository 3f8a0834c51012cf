# Navek Fiber: a verified model of the kernel's core

Navek Fiber takes HTTP requests off the network, routes them to message queues and lets
consumers answer them. This project states what the hard parts of that path do and proves it
for every input, every run and every interleaving.

| files | what they model |
|---|---|
| `Bytes.dfy`, `FindMatch.dfy` | the case folding table and the three pointer scanners |
| `ReadBuffer.dfy` | the receive buffer against any behaviour of the socket |
| `HttpParser.dfy`, `LineEnds.dfy`, `HttpRoundTrip.dfy`, `HttpReceived.dfy`, `HttpCodes.dfy`, `HttpRefused.dfy`, `HttpVerbs.dfy`, `HttpLines.dfy` | the request parser, its round trip, its independence of octets never received, its codes, when a refusal is final, the verbs by name, and what each line gives |
| `SyncQueue.dfy`, `SyncQueueRuns.dfy`, `SyncQueueTurns.dfy` | the synchronous broker, every run of it, and what each turn in a run achieves |
| `SyncSapi.dfy`, `SyncSapiTurns.dfy` | the broker that starts a thread per message, every run of it, and what each step achieves |
| `ThreadPool.dfy`, `ThreadPoolRuns.dfy`, `ThreadPoolResults.dfy`, `ThreadPoolTurns.dfy` | the elastic thread pool, its runs, what they guarantee, and what each step achieves |
| `Router.dfy`, `Headers.dfy` | two hash indexes and the linear scans they must agree with |
| `Config.dfy`, `ConfigLines.dfy`, `ConfigRoundTrip.dfy`, `ConfigLookup.dfy` | the section machine, what it collects from any lines, the round trip through it, dotted navigation |
| `Server.dfy` | message ids |
| `Sequences.dfy`, `Arithmetic.dfy`, `Options.dfy` | counting and distinctness of finite sequences; division; optional values |

How the model is built. Code that scans or mutates is a method with a loop, or a class whose
methods reassign its fields, proved equal to a function of the old state (`ensures View() ==
...(old(View()))`). The lemmas are about those functions. A protocol is a state machine: each
handler or thread has a program counter, one event is one critical section, one reply or one
access to an atomic variable, and a run is any sequence of states in which each follows from the
one before by an enabled event. `k` in the lemmas below ranges over all positions of all runs.

## What the proofs say about the code

* The header line before the empty line is taken together with it as the separator, so the last
  field of a request is not recorded; a request without fields leaves the target unset
  (`HttpRoundTrip.WhatTheParserLoses`).
* The scan for the query is given an empty range. The target keeps its query and the query
  parameters are never set, whatever is received (`HttpParser.ParamsNeverFilled`).
* `find_char` reads as "not found" exactly when the range has no delimiter or the first one in it
  has index 1 in the list (`FindMatch.ScanCharFound`).
* As a consequence a target that is followed by a tab is answered with 400, when the request line
  is not itself the separator; when it is, the target is never read and the answer is 0
  (`HttpCodes.CodeIs`).
* A header line closed by a bare line feed is never recorded (`HttpLines.BareLineFeedLosesField`).
* `Head()` spans the whole head part, received or not. A successful parse is determined by the
  received octets exactly when the separator it uses ends within them
  (`HttpReceived.SuccessIsDeterminedIff`); `HttpRefused.dfy` gives the exact
  condition for each refusal (for 431, of the code).
* A Post that erases an id still in the queue leaves that id without a message. A run keeps its
  ids split into queued, locked and answered exactly when no Post of it does that
  (`SyncQueueRuns.ConservedIff`), and a Get throws exactly when the id at the front was erased
  while queued (`SyncQueueRuns.GetThrowsIff`).
* With a non-zero task limit the SAPI broker can strand a message; without one it cannot, not even
  after the stop (`SyncSapi.NeverStrandedIff`).
* The route hash covers the first eight characters of the first segment. It respects the
  comparison for paths in which those characters are literal and complete (`Router.Settled`): no
  wildcard among them, and the path does not end before the segment or the eight do. For a table
  with any other route some settled target is missed that a scan would match, and any other target
  misses some settled route (`Router.LookupIsScanIff`, `Router.TargetIsScannedIff`). The routes `/`
  and `/*/`, which the endpoints `sync-queue://` and `sync-queue://*/` produce, are missed by
  `/abc/` (`Router.MissedRoutes`).
* The query that stays in the target acts as a wildcard there. In a table of settled routes without
  wildcards that end in a slash, a target with a query finds exactly the routes that lie before its
  question mark (`Router.QueryLookup`): `/abc?x` does not reach `/abc/`.
* `RuntimeException` inherits `std::exception` privately (`ci/coreexcept.h:8`), so the handler in
  `Post` does not catch a failed send; the exception goes to the router. Nothing is erased then.

## Premises

* Broker: ids of Puts are fresh (`Server.dfy` says when `getMsgId` guarantees it). For conservation
  also: consumers post only ids some Get has taken.
* Thread pool: one thread enqueues and later stops the pool, as the main loop does
  (`kernel/main/run.cpp:113-131`). The build is one in which `dbg_trace` evaluates its arguments,
  because `Workers.erase` is one of them; under `NDEBUG` (`ci/trace.h:11`) threads that left would
  stay registered. `PoolMaxWorkers` fits `size_t`, and the numbers of queued tasks and of threads at
  an Enqueue are below 2^62.
* SAPI broker: the id is read before the request is moved (`mq/mq-sync/src/sync-sapi.cpp:168-169`).
  The unlocked reads of `mq_working` and `mq_queue` are single steps.
* Receive buffer: `Read` is called once on a new buffer, and for the parser `PartLength` does not
  exceed `MaxLength`.
* Configuration: lines come classified; a section line has at least one bracket.

## Model

| member | source | states |
|---|---|---|
| FindMatch.MatchValues | ci/utils/findmatch.h:21-46 | the restart loop chooses the needle that an independent needle-by-needle definition chooses, with the end just past it |
| FindMatch.MatchFromChooses | ci/utils/findmatch.h:32-45 | for any needle list the answer is i+1 exactly when needle i is a case-folded prefix and every earlier needle differs from the text at a position both have |
| FindMatch.MatchPrefixFree | ci/utils/findmatch.h:21-46 | for any prefix-free list the answer is i+1 exactly when needle i is a case-folded prefix, although the scan gives up when the text ends inside some needle |
| HttpRoundTrip.MethodsArePrefixFree | kernel/net/impl/protoimpl.h:6 | the verb list is prefix-free under case folding |
| FindMatch.TryNeedle | ci/utils/findmatch.h:70-72 | the inner loop matches exactly when the needle stands at the position, and stops on its last octet |
| FindMatch.FindValues | ci/utils/findmatch.h:59-79 | the search with the wrapped needle index computes the leftmost search over positions; it terminates although the position advances only every n-th turn |
| FindMatch.FindLeftmost | ci/utils/findmatch.h:59-79 | the leftmost position with any needle, the lowest needle index there, its exact end; 0 only when no needle occurs anywhere |
| FindMatch.FindChar | ci/utils/findmatch.h:86-96 | the two-pointer scan computes the position-by-position scan, with the unsigned result code |
| FindMatch.DelimiterCodes | ci/utils/findmatch.h:92 | the codes as unsigned 64-bit numbers: 1 for the first delimiter, 0 for the second, 2^64+1-k from there on |
| Bytes.FoldIdentifies | ci/utils/ascii.h:6-23 | folding identifies each letter a-z with its capital, and nothing else |
| FindMatch.ScanCharStops | ci/utils/findmatch.h:88-94 | the scan stops at the leftmost octet that is in the list, with the code of its first index |
| FindMatch.ScanCharFound | ci/utils/findmatch.h:17-95 | it reads as found exactly when the range has a delimiter and the leftmost one has not index 1 |
| FindMatch.ScanCharMisses | ci/utils/findmatch.h:95 | without a delimiter in the range the answer is 0 and the end of the range |
| ReadBuffers.ReadBuffer.Read | kernel/net/impl/bufferimpl.h:24-34 | for every sequence of answers of `recv` and `FIONREAD`: the stored octets are the concatenation of the received chunks, within `MaxLength`; the error is the errno of the failing call |
| ReadBuffers.ReadBuffer.StoreChunk | kernel/net/impl/bufferimpl.h:30 | a chunk lands at the offset and nothing else in the buffer changes |
| ReadBuffers.Stored | kernel/net/impl/bufferimpl.h:29-31 | no sequence of answers makes the loop store beyond `MaxLength` |
| ReadBuffers.StoredIsStreamPrefix | kernel/net/impl/bufferimpl.h:29-31 | what is stored is a prefix of what the peer sent: nothing lost, repeated or reordered |
| ReadBuffers.AllIsStored | kernel/net/impl/bufferimpl.h:29-33 | when every call succeeds, all fits, and FIONREAD reports octets that leave room before the last chunk, everything the peer sent is stored |
| ReadBuffers.ChunksInOrder | kernel/net/impl/bufferimpl.h:30 | the i-th stored chunk is what the i-th answer brought, cut to the room left |
| ReadBuffers.NoReasonBefore | kernel/net/impl/bufferimpl.h:31 | the loop never stops early: at every chunk but the last something came, and FIONREAD reported octets that leave room |
| ReadBuffers.StopsExactly | kernel/net/impl/bufferimpl.h:31-33 | it stops only for a reason: nothing came, FIONREAD failed, reported none, or would reach the end; or the next call failed, whose errno is the error, or nothing more came |
| HttpParser.HttpRequest.ParseRequest | kernel/net/impl/httpimpl.cpp:14-61 | the line loop with its pointers computes the recursive parse: code, verb, target, fields and content, also on each error path |
| HttpParser.HttpRequest.ReadField | kernel/net/impl/httpimpl.cpp:27-37 | a later line adds its name and value, or nothing, and changes nothing else |
| HttpParser.HttpRequest.ReadTarget | kernel/net/impl/httpimpl.cpp:38-49 | the request line sets the target and nothing else; the query branch is unreachable |
| HttpParser.ParamsNeverFilled | kernel/net/impl/httpimpl.cpp:42-45 | no buffer whatsoever makes the parser set the query parameters |
| HttpParser.LinesLeaveParams | kernel/net/impl/httpimpl.cpp:25-55 | the line loop never changes verb and parameters and only appends header fields |
| HttpLines.FieldIs | kernel/net/impl/httpimpl.cpp:28-33 | in octets: a line is recorded exactly if a colon comes before any blank or line feed, and a CR after it before any line feed; name and value are what they enclose |
| HttpLines.BareLineFeedLosesField | kernel/net/impl/httpimpl.cpp:30 | a line closed by a bare line feed is never recorded |
| HttpLines.TargetIs | kernel/net/impl/httpimpl.cpp:39-48 | in octets: the target goes up to the first blank, tab, LF or CR, and is refused if that is a tab |
| HttpLines.ContentIs | kernel/net/impl/httpimpl.cpp:51-53 | the content of every successful parse: the received octets past the separator, none if it ends past them |
| HttpLines.ParseStores | kernel/net/impl/httpimpl.cpp:14-61 | what every parse stores, refused or not: verb, target, the fields of all lines between request line and separator in order, and content only with success |
| LineEnds.LineEndAt | kernel/net/impl/httpimpl.cpp:12 | which of the four line ends stands at a position, in terms of the octets there |
| LineEnds.FindCrlf | kernel/net/impl/httpimpl.cpp:25 | from a line without CR and LF the scan stops at its CRLF, as separator exactly when another CRLF follows |
| HttpRoundTrip.VerbRecognised | kernel/net/impl/httpimpl.cpp:20-23 | each verb, in any letter case, is recognised with its number |
| HttpVerbs.NumberIff | kernel/net/impl/protoimpl.h:6-7 | each of the nine names, in any letter case and with a blank, is answered with its number in the enumeration, and with no other head |
| HttpVerbs.VerbAnswered | kernel/net/impl/httpimpl.cpp:20-23 | a parse stores the number of the verb the head starts with; with no verb it answers 405 and stores nothing |
| HttpVerbs.PrintParseVerb | kernel/net/impl/httpimpl.cpp:14-61 | the round trip for a verb by its name |
| HttpRoundTrip.FieldRecorded | kernel/net/impl/httpimpl.cpp:28-33 | the line of a well-formed field is recorded with its exact name and raw value |
| HttpRoundTrip.FieldLine | kernel/net/impl/httpimpl.cpp:25-26 | the line end after a field is the separator exactly when it is the last field |
| HttpRoundTrip.ParseFields | kernel/net/impl/httpimpl.cpp:25-55 | past the request line, n fields yield the first n-1 in order and the body |
| HttpRoundTrip.PrintParse | kernel/net/impl/httpimpl.cpp:14-61 | round trip of any well-formed request (RFC 7230, section 3), whatever stands in the buffer after it: verb, exact target, body, the first n-1 fields in order; with no field the target stays unset |
| HttpRoundTrip.WhatTheParserLoses | kernel/net/impl/httpimpl.cpp:25-53 | exactly when fields or target are lost |
| HttpRoundTrip.ReadThenParse | kernel/net/impl/httpimpl.cpp:14-61 | socket to request: however the octets arrive in chunks, once the head was received the result is that of the whole request, with the received part of the body |
| HttpRoundTrip.ReadAllThenParse | kernel/net/impl/httpimpl.cpp:14-61 | socket to request: when all chunks are announced and fit, the parse gives the whole round trip |
| HttpReceived.FindAgrees | kernel/net/impl/httpimpl.cpp:25 | the next line end is the same in every buffer with the same received octets, if the head ends within them |
| HttpReceived.VerbAgrees | kernel/net/impl/httpimpl.cpp:20 | the verb, too, does not depend on octets that were not received |
| HttpReceived.ParseLinesAgree | kernel/net/impl/httpimpl.cpp:25-55 | nor does any field, the target or the content |
| HttpReceived.ParseDependsOnReceived | kernel/net/impl/bufferimpl.h:37-42 | if the head ends within the received octets, two buffers that share those give the same result |
| HttpReceived.NoHeadNoSuccess | kernel/net/impl/httpimpl.cpp:25-56 | with the rest of the buffer cleared, a head that does not end within the received octets is refused |
| HttpReceived.SuccessIsDeterminedIff | kernel/net/impl/bufferimpl.h:37-42 | a successful parse is determined by the received octets exactly when its separator ends within them |
| HttpCodes.VerbFoundIff | kernel/net/impl/httpimpl.cpp:20-22 | a verb is found exactly when the head starts with one, in any letter case |
| HttpCodes.TargetFoundIff | kernel/net/impl/httpimpl.cpp:39-48 | in a line that has an end, the target is refused exactly when a tab ends it |
| HttpCodes.LinesCode | kernel/net/impl/httpimpl.cpp:25-56 | past the request line the code depends on nothing but whether a separator is reached |
| HttpCodes.CodeIs | kernel/net/impl/httpimpl.cpp:14-61 | the code of every parse: 400 exactly for an empty read, or for a target ended by a tab when the request line is not itself the separator; 405 without a verb, 431 without a separator, otherwise 0 |
| HttpRefused.FullHeadIsDetermined | kernel/net/impl/bufferimpl.h:37-42 | once the whole head part was received, every result is determined by the received octets |
| HttpRefused.UnknownVerbIsDeterminedIff | kernel/net/impl/httpimpl.cpp:20-22 | a 405 is determined exactly when no verb agrees with the received octets |
| HttpRefused.BadRequestIsDeterminedIff | kernel/net/impl/httpimpl.cpp:25-60 | a 400 is determined exactly for an empty read, or when the first line end was received with enough after it to show that it is no separator |
| HttpRefused.TooLargeIsFinalIff | kernel/net/impl/httpimpl.cpp:25-56 | a 431 stands for all octets that may still come exactly when it stands for zeros, for line feeds, and for CR LF with line feeds: three parses decide for all |
| HttpRefused.TooLargeNeedsTheHead | kernel/net/impl/httpimpl.cpp:25-56 | in particular never while three or more octets of the head part are missing |
| HttpRefused.LineNear | kernel/net/impl/httpimpl.cpp:25 | a line end within the common octets of two buffers is in both, or other octets made a separator of it, which happens only if it was not settled |
| SyncQueue.SyncQueueHandler.Put | mq/mq-sync/src/sync-queue.cpp:210-218 | one critical section: whole new state, accepted or not, nothing changed at the limit |
| SyncQueue.SyncQueueHandler.Get | mq/mq-sync/src/sync-queue.cpp:136-144 | one critical section: front id moves to the locked set; message, nothing, or the exception of `at` |
| SyncQueue.SyncQueueHandler.Find | mq/mq-sync/src/sync-queue.cpp:168-174 | the look-up of Post changes nothing |
| SyncQueue.SyncQueueHandler.Erase | mq/mq-sync/src/sync-queue.cpp:178-182 | the second critical section of Post: the id leaves messages and locked set, the queue stays |
| SyncQueueRuns.HeadNamesAccepted | mq/mq-sync/src/sync-queue.cpp:226-237 | an id reported by Head was accepted, also when it is reported after the queue moved on; 0 stands exactly for an empty queue as long as 0 itself was not accepted |
| SyncQueueRuns.FifoInEveryRun | mq/mq-sync/src/sync-queue.cpp:131-224 | in every run, with Posts on arbitrary ids: ids handed out followed by the queue are the accepted sequence, without repetition; a non-zero limit bounds the queue; stored messages lie within queue and locked set; every message is the very request of its Put, and a forwarded reply goes to the producer of the posted id |
| SyncQueueRuns.ConservedInEveryRun | mq/mq-sync/src/sync-queue.cpp:131-224 | with disciplined consumers, over all interleavings: accepted ids are the disjoint union of queued, locked and answered; messages are those of queued and locked; `at` never throws; answered only after a 200 reply to the producer, also when Posts on one id overlap; a consumer is told 200 or 300 only about an answered id |
| SyncQueueRuns.StatsAddUp | mq/mq-sync/src/sync-queue.h:32-39 | in every such run the message count is the queue count plus the locked count |
| SyncQueueRuns.AnsweredForGood | mq/mq-sync/src/sync-queue.cpp:175-188 | an answered id is never queued, locked or stored again |
| SyncQueueRuns.EraseKeepsTidyIff | mq/mq-sync/src/sync-queue.cpp:178-182 | the erase keeps messages in step with queue and locked set exactly when the id is not queued |
| SyncQueueRuns.ConservedIff | mq/mq-sync/src/sync-queue.cpp:131-224 | any run, any posted ids: the whole partition holds all the way exactly when no Post erases an id that is still queued; likewise the messages stay in step with queue and locked set |
| SyncQueueRuns.LostMessages | mq/mq-sync/src/sync-queue.cpp:175-182 | any run, any state: a queued id is without its message exactly when some Post erased it while it was queued |
| SyncQueueRuns.GetThrowsIff | mq/mq-sync/src/sync-queue.cpp:137-143 | any run: a Get throws exactly when the front id was erased while queued |
| SyncQueueRuns.TidyGet | mq/mq-sync/src/sync-queue.cpp:142 | in a state in step, the look-up of Get never throws |
| SyncQueueRuns.UndisciplinedPostBreaksGet | mq/mq-sync/src/sync-queue.cpp:142 | the concrete run behind that condition: Put, Post of the queued id, Get throws |
| SyncQueueTurns.PutInEveryRun | mq/mq-sync/src/sync-queue.cpp:206-219 | any run: a fresh Put is accepted, with its request, exactly when there is room; otherwise nothing changes and it is refused |
| SyncQueueTurns.GetInEveryRun | mq/mq-sync/src/sync-queue.cpp:136-153 | any run: a Get hands out the oldest accepted id not handed out yet, with the very request of its Put unless it was erased while queued; "empty" exactly when all were handed out |
| SyncQueueTurns.PostInEveryRun | mq/mq-sync/src/sync-queue.cpp:168-191 | disciplined runs: a Post is forwarded to the producer of its id, or told 300 exactly when the id is answered |
| SyncQueueTurns.ForwardInEveryRun | mq/mq-sync/src/sync-queue.cpp:175-188 | any run: a delivered reply is on record for that producer and the erase follows; an undelivered one gives 499; the broker does not change |
| SyncQueueTurns.EraseInEveryRun | mq/mq-sync/src/sync-queue.cpp:178-183 | disciplined runs: after the erase, also one of several overlapping ones, the id is answered and gone, all else is untouched, and the consumer is told 200 |
| SyncQueueTurns.HeadInEveryRun | mq/mq-sync/src/sync-queue.cpp:226-237 | any run: Head reports the id the next Get hands out, 0 when all were handed out |
| SyncQueueTurns.StartInEveryRun | mq/mq-sync/src/sync-queue.h:52-55 | handlers of every kind can start at any time, which changes nothing else |
| SyncQueueTurns.RepeatedPut | mq/mq-sync/src/sync-queue.cpp:212-219 | a Put of a stored id is refused and keeps the stored message, yet queues the id again |
| SyncSapi.SyncSapiHandler.Put | mq/mq-sync/src/sync-sapi.cpp:166-175 | one critical section: whole new state, and whether a thread is started, with the narrowing of the limit to 32 bits |
| SyncSapi.SyncSapiHandler.TakeMessage | mq/mq-sync/src/sync-sapi.cpp:46-50 | pops the front id or finds the queue empty |
| SyncSapi.SyncSapiHandler.Finalize | mq/mq-sync/src/sync-sapi.cpp:137-143 | clears `mq_working` and nothing else |
| SyncSapi.InvInEveryRun | mq/mq-sync/src/sync-sapi.cpp:41-187 | in every run: `mq_workers` counts the live threads and respects a non-zero task limit; accepted messages are popped once each, in order, and always found; with no task limit the queue is no longer than the number of threads before their first pop |
| SyncSapiTurns.EnterInEveryRun | mq/mq-sync/src/sync-sapi.cpp:165-182 | a Put goes on exactly when the broker works |
| SyncSapiTurns.PutInEveryRun | mq/mq-sync/src/sync-sapi.cpp:166-178 | a fresh Put is accepted exactly when there is room; a thread is started exactly when there is no task limit or fewer are alive |
| SyncSapiTurns.PopInEveryRun | mq/mq-sync/src/sync-sapi.cpp:46-50 | a thread takes the oldest message not yet popped, or is about to leave when there is none |
| SyncSapiTurns.LoopInEveryRun | mq/mq-sync/src/sync-sapi.cpp:53-81 | after its reply a thread goes on exactly while the broker works and a message is queued |
| SyncSapiTurns.LeaveInEveryRun | mq/mq-sync/src/sync-sapi.cpp:81-82 | a leaving thread counts itself off once |
| SyncSapiTurns.StartInEveryRun | mq/mq-sync/src/sync-sapi.cpp:137-143 | Puts can start and the broker can be stopped at any time; only the stop clears `mq_working`, and nothing sets it again |
| SyncSapiTurns.RepeatedPut | mq/mq-sync/src/sync-sapi.cpp:168 | a Put of a known id is refused without a change |
| SyncSapi.NothingStranded | mq/mq-sync/src/sync-sapi.cpp:81-82 | with no task limit a queued message has a thread that is yet to pop, also after the stop |
| SyncSapi.SomeRunStrands | mq/mq-sync/src/sync-sapi.cpp:81-170 | with any task limit some run ends with a queued message and no thread |
| SyncSapi.NeverStrandedIff | mq/mq-sync/src/sync-sapi.cpp:81-175 | no run strands a message exactly when there is no task limit |
| ThreadPools.HireCountIsPlain | kernel/mt/threadpool.cpp:106-121 | in the reachable range the unsigned sizing rule is the rule over integers |
| ThreadPools.HiringIsSufficientAndMinimal | kernel/mt/threadpool.cpp:106-121 | free and hired workers cover the tasks or the pool is at its maximum; an uncut hire is the least covering multiple of the initial size; the maximum is never exceeded |
| ThreadPools.RoundUpLeast | kernel/mt/threadpool.cpp:111 | the rounding gives the least multiple |
| ThreadPools.ThreadPool.Hire | kernel/mt/threadpool.cpp:123-174 | each hire registers a thread under a new number on the next core of the binding |
| ThreadPools.ThreadPool.CheckResize | kernel/mt/threadpool.cpp:106-121 | hires the count of the 64-bit sizing rule, and nothing when it is 0 |
| ThreadPools.ThreadPool.Enqueue | kernel/mt/threadpool.h:55-64 | a stopped pool throws and changes nothing; otherwise the task goes to the end, and the snapshot counts it |
| ThreadPools.ThreadPool.NextOrder | kernel/mt/threadpool.cpp:145-166 | what a worker does after its wait: terminate, wait again, unregister and leave, or take the front task |
| ThreadPools.ThreadPool.Stop | kernel/mt/threadpool.cpp:67-72 | clears `PoolYet` and nothing else |
| ThreadPoolResults.StateAddsUp | kernel/mt/threadpool.cpp:82-89 | what the counts mean in every run: workers within the bounds; all tasks enqueued are waiting, in the hands of a worker, or finished; the busy count, read later, lies within 0 and the maximum, and in the same state below the registered and the task-holding workers |
| ThreadPoolResults.PoppedAddsUp | kernel/mt/threadpool.cpp:164-169 | in every run the popped tasks are the finished ones and those in the hands of a worker |
| ThreadPools.ThreadPool.Create | kernel/mt/threadpool.cpp:26-61 | throws exactly when there is no initial worker, the maximum is below it, or no core is left; otherwise the initial workers are hired on distinct allowed cores |
| ThreadPools.BindCores | kernel/mt/threadpool.cpp:30-55 | the cores are exactly the listed ones modulo the hardware count, or all, without the excluded ones, each once |
| ThreadPools.BindingSetIs | kernel/mt/threadpool.cpp:38-51 | which cores these are, one by one |
| ThreadPools.AllCores | kernel/mt/threadpool.cpp:38-44 | the count-down loop collects all cores but the excluded ones |
| ThreadPools.ListedCores | kernel/mt/threadpool.cpp:45-51 | the loop over the list collects the reduced cores but the excluded ones |
| ThreadPoolRuns.HireSectionAdds | kernel/mt/threadpool.cpp:123-174 | hiring n adds exactly n new numbers and touches nothing else |
| ThreadPoolRuns.InvInEveryRun | kernel/mt/threadpool.cpp:106-174 | the whole invariant in every run: registration, counters, snapshot bounds, task conservation, single holders |
| ThreadPoolRuns.BusyAtMostRegistered | kernel/mt/threadpool.cpp:167-169 | the busy count lies between 0 and the number of registered workers |
| ThreadPoolTurns.WaitingInEveryRun | kernel/mt/threadpool.cpp:145-166 | any run, a worker of either kind back from its wait: stopped, it terminates; with tasks queued, it takes the oldest; without, an extended one is unregistered and leaves, a persistent one waits again |
| ThreadPoolTurns.TaskInEveryRun | kernel/mt/threadpool.cpp:167-169 | any run: a held task is counted busy, run once to its end, counted off |
| ThreadPoolTurns.RecordInEveryRun | kernel/mt/threadpool.cpp:171-173 | any run: every registered thread is on record with its core, number and kind |
| ThreadPoolTurns.StartOfEveryRun | kernel/mt/threadpool.cpp:26-61 | the constructor leaves the initial number of persistent workers, waiting on their cores |
| ThreadPoolTurns.EnqueueInEveryRun | kernel/mt/threadpool.h:55-64 | any run: the task becomes the last one, the snapshot is exact; a stopped pool refuses |
| ThreadPoolTurns.ResizeInEveryRun | kernel/mt/threadpool.cpp:106-121 | any run: the planned hire covers the pending tasks or reaches the maximum, and is the least such multiple of the initial size |
| ThreadPoolTurns.HireInEveryRun | kernel/mt/threadpool.cpp:123-174 | any run: exactly the planned number of extended workers joins, waiting, registered, on their cores; nothing else changes |
| ThreadPoolTurns.StopInEveryRun | kernel/mt/threadpool.cpp:67-73 | the stop changes the flag alone |
| ThreadPoolResults.PoolSizeBounded | kernel/mt/threadpool.cpp:106-174 | in every run the pool size stays between initial and maximal size although the hire count comes from an earlier snapshot |
| ThreadPoolResults.ResizeNeverWraps | kernel/mt/threadpool.cpp:106-116 | in every run 0 <= busy <= snapshot <= maximum when the rule is evaluated, so no unsigned operation wraps |
| ThreadPoolResults.TasksConserved | kernel/mt/threadpool.cpp:137-170 | popped tasks followed by the queue are the enqueued ones; a popped task is finished or held, by one worker only; `PoolBusyWorkers` counts the workers between increment and decrement |
| ThreadPoolResults.SomeWorkerMakesProgress | kernel/mt/threadpool.cpp:137-170 | with queued tasks every persistent worker can take its next step, and a waiting one takes the front task |
| ThreadPoolResults.TimedOutWorkerIsRegistered | kernel/mt/threadpool.cpp:151-162 | a timed-out extended worker always finds itself registered |
| ThreadPoolResults.StepAfterStop | kernel/mt/threadpool.cpp:145-148 | after the stop only workers step, each step uses up one unit of a measure, workers and tasks stay unchanged |
| ThreadPoolResults.StoppedIsIdle | kernel/main/run.cpp:119-131 | no Enqueue is under way in a stopped pool |
| ThreadPoolResults.ShutdownEnds | kernel/mt/threadpool.cpp:67-80 | the steps after the stop are exactly what the measure lost, so shutdown ends; the table Join walks never changes meanwhile |
| ThreadPoolResults.StandstillIff | kernel/mt/threadpool.cpp:74-78 | a stopped pool stands still exactly when every worker has terminated or left |
| ThreadPoolResults.HiresAtIsEven | kernel/mt/threadpool.cpp:171-172 | among n round-robin hires each position gets n/size, and the first n mod size one more |
| ThreadPoolResults.CrewOnCore | kernel/mt/threadpool.cpp:171-173 | in every run each core has exactly that share of all hired workers |
| ThreadPoolResults.CoresAreBalanced | kernel/mt/threadpool.cpp:171-173 | in every run the hires on two cores differ by at most one |
| Router.ComparePaths | kernel/main/impl/routerimpl.h:38-58 | the loop over two pointers computes the recursive comparison |
| Router.CompareReflexive | kernel/main/impl/routerimpl.h:38-58 | every path compares equal to itself |
| Router.CompareSymmetric | kernel/main/impl/routerimpl.h:38-58 | comparison is symmetric on all paths |
| Router.CompareNotTransitive | kernel/main/impl/routerimpl.h:38-58 | it is no equivalence: a concrete triple |
| Router.CompareIsExpansion | kernel/main/impl/routerimpl.h:38-58 | against a path without wildcards: true exactly when the pattern, cut at its first star and with each question mark replaced by the slash-free run of the path there, is prefix-comparable with the path |
| Router.HashPath | kernel/main/impl/routerimpl.h:29-36 | the loop hashes the first eight characters of the first segment |
| Router.HashInjective | kernel/main/impl/routerimpl.h:29-36 | ASCII segments of up to seven characters with equal hashes are equal |
| Router.NonAsciiForgets | kernel/main/impl/routerimpl.h:33 | a character outside ASCII is sign-extended and wipes out what was hashed before it |
| Router.SegmentsMatch | kernel/main/impl/routerimpl.h:38-58 | texts that compare equal agree in the first n characters of their first segments, if these are literal and complete |
| Router.CompareImpliesHash | kernel/main/impl/routerimpl.h:29-58 | any two settled paths that compare equal have the same hash |
| Router.CutOffMisses | kernel/main/impl/routerimpl.h:29-58 | for every path that is cut off, a settled path that compares equal and hashes differently |
| Router.WildcardMisses | kernel/main/impl/routerimpl.h:29-58 | the same for every path with a wildcard among its hashed characters |
| Router.HashRespectsCompareIff | kernel/main/impl/routerimpl.h:29-58 | for every path without exception: it has the hash of all settled paths that compare equal to it exactly when it is settled |
| Router.MissedRoutes | kernel/main/impl/routerimpl.h:29-58 | concrete pairs: / and /*/ with /abc/, and /abc/ with /ab |
| Router.LookupIsScanIff | kernel/main/impl/routerimpl.h:72 | any table: hash and comparison find what a scan finds, for every settled target, exactly when all routes are settled |
| Router.TargetIsScannedIff | kernel/main/impl/routerimpl.h:72 | any target: every table of settled routes is searched as by a scan exactly when the target is settled |
| Router.CompareQuery | kernel/main/impl/routerimpl.h:38-58 | a route without wildcards against a target with a query: equal exactly when it is a prefix of the part before the question mark, or goes on after it with a slash-free run and then compares equal to the query |
| Router.QueryReaches | kernel/main/impl/routerimpl.h:38-58 | if that route ends in a slash and the query starts with a plain character: exactly when the route lies before the question mark |
| Router.QueryLookup | kernel/main/impl/routerimpl.cpp:25-29 | what the look-up finds for such a target: exactly the routes before its question mark |
| Router.RouterTable.AddRoute | kernel/main/impl/routerimpl.cpp:8-16 | adds the entry with its hash, or nothing for an empty path or an endpoint that is not ready |
| Router.RouterTable.Find | kernel/main/impl/routerimpl.cpp:27-29 | some entry with hash and comparison, or none when there is none |
| Router.RouterTable.Dispatch | kernel/main/impl/routerimpl.cpp:25-35 | any target, any table: what is found compares equal; nothing is found exactly when hash and comparison find nothing, and then no settled route compares equal to a settled target |
| Headers.EqualIgnoringCase | ci/utils/str.h:87-102 | true exactly when lengths agree and all octets fold alike |
| Headers.FoldEqIsEquivalence | ci/utils/str.h:87-102 | reflexive, symmetric, transitive |
| Headers.FastHash | ci/utils/str.h:76-86 | the loop hashes the folded first eight octets modulo 2^64 |
| Headers.EqualNamesHashAlike | ci/utils/str.h:76-102 | names equal up to case hash alike |
| Headers.IndexIsFirstMatch | kernel/main/impl/requestimpl.cpp:23-31 | the bucket search over the entries `emplace` kept finds what a scan of the whole list finds, duplicates included |
| Headers.RequestImpl.BuildIndex | kernel/main/impl/requestimpl.cpp:23-27 | each bucket holds the first entries of their names, in order |
| Headers.RequestImpl.GetHeaderOption | kernel/main/impl/requestimpl.cpp:22-33 | the value of the first header with the name up to case, else the default, on the first and on every later call |
| Config.ImplodeConfigPath | kernel/main/config.cpp:11-26 | the loop joins the names with dots |
| Config.Kernel.InitConfig | kernel/main/config.cpp:42-86 | the loop over the lines computes the section machine's table; fails exactly when a property has no section to go to |
| Config.Kernel.ReadSection | kernel/main/config.cpp:53-81 | the three branches pop to the parent, register section and parent, append the child |
| ConfigLines.RunEssential | kernel/main/config.cpp:53-86 | lines that are neither section nor property make no difference, wherever they stand |
| ConfigLines.ParentIsAbove | kernel/main/config.cpp:54-78 | a section of level L hangs below the first L-1 names of the path, or below all of them when the level jumps |
| ConfigLines.StepCollects | kernel/main/config.cpp:53-86 | what any one line adds to each key |
| ConfigLines.RunCollects | kernel/main/config.cpp:42-86 | the whole result for any lines, with sections that come again, jumping levels, and repeated properties: when it exists, which keys there are, the names below each in order, and the first value of each property |
| ConfigRoundTrip.JoinInjective | kernel/main/config.cpp:11-26 | different paths of good names have different dotted keys |
| ConfigRoundTrip.LastNameUnique | kernel/main/config.cpp:11-26 | a dotted key determines its last name and the rest |
| ConfigRoundTrip.RunProps | kernel/main/config.cpp:82-86 | property lines fill the current section, first value first |
| ConfigRoundTrip.FlatKeys | kernel/main/config.cpp:58-59 | every key of a flattened forest is the dotted form of a path through it |
| ConfigRoundTrip.FlatIsFollow | kernel/main/config.cpp:53-81 | the flattened forest has an entry exactly where a path leads to a section, and it is that section's |
| ConfigRoundTrip.RunListing | kernel/main/config.cpp:53-86 | from any depth, the listing of a forest adds exactly the forest and leaves the stack at or below where it hangs |
| ConfigRoundTrip.ReadBack | kernel/main/config.cpp:42-86 | round trip: reading the listing of any well-named forest, with any other lines between, succeeds, every section has its children in order and its properties, and there is no other key |
| ConfigLookup.ConfigImpl.GetConfigValue | kernel/main/impl/cfgimpl.h:38-61 | splits at the last dot and answers the value or the default |
| ConfigLookup.NavigateIsJoin | kernel/main/impl/cfgimpl.h:33-35 | navigating along names stands at their dotted key |
| ConfigLookup.TargetOfDotted | kernel/main/impl/cfgimpl.h:39-49 | a dotted property name is the plain one at the sub-section the dots lead to |
| ConfigLookup.ReadValue | kernel/main/impl/cfgimpl.h:28-61 | file to value: after reading a forest, with any other lines between, navigating and asking gives the first value the section gives to the property, else the default |
| ConfigLookup.ReadSections | kernel/main/impl/cfgimpl.h:28-31 | file to sections: the sub-sections of any section, in file order |
| Servers.Server.NextId | kernel/net/server.cpp:16-18 | the id of the clock and the counter, which goes up by one |
| Servers.Server.Accept | kernel/net/server.cpp:61-71 | consecutive accepts get pairwise different ids while the counter stays below 2^32, and the counter has advanced by their number |
| Servers.IdsConcat | kernel/net/server.cpp:61-71 | two calls in a row give the ids of one call, so freshness goes across calls |
| Servers.IdsAreFresh | kernel/net/server.cpp:16-18 | the same for any clock, also one that moves backwards |
| Servers.IdsCollideIff | kernel/net/server.cpp:16-18 | exactly when two ids are equal, for any clock and counter |
| Servers.GrownCounterCollides | kernel/net/server.cpp:16-18 | a concrete collision once the counter has outgrown its half |

## Left out

- SyncQueueRuns.ConservedInEveryRun: says nothing about how often a producer is answered when two Posts on one id overlap; nothing in the code serialises their replies.
- ThreadPoolResults.PoolSizeBounded: holds for one enqueuing thread; with two racing ones the bound is not a theorem of the code.
- ThreadPoolResults.TasksConserved: `PoolIndexWorkers` and task positions are unbounded numbers; their 64-bit counters would take that many hires or tasks to wrap.
- SyncSapi.InvInEveryRun: `mq_workers` is an unbounded integer; with no task limit its 32 bits would need 2^31 live threads to wrap.
- Router.RouterTable.Find: which of several matching routes comes first depends on the bucket layout and is left open.
- Router.CompareQuery: a route with wildcards against a target with a query is not characterised beyond `Compare` itself.
- HttpRefused.TooLargeIsFinalIff: speaks of the code alone; which fields were recorded before the refusal may still depend on the octets past the received ones.
- ThreadPools.BindCores: with a hardware count of 0 and listed cores the source divides by zero; the count is required to be positive there.
- ThreadPools.ThreadPool.GetState: the method reads the busy count together with the sizes; the source reads it just after releasing the lock, which `StateAddsUp` covers.
- Config.Kernel.InitConfig: a property before any section, or below a section with an empty name, dereferences the end iterator in the source; the model stops with a failure.
- HttpParser.HttpRequest.ParseRequest: spans into the buffer are written as the octets they cover, so aliasing with the buffer is not modelled.
- Headers.RequestImpl.GetHeaderOption: an empty header list rebuilds the empty index at each call, as the source does; the null default is written as the empty text.
- Sockets, `poll`, `accept`, `shutdown` and `send`: their outcomes are parameters of the steps.
- `Reply` and its status texts, telemetry, the JSON writer, the statistics headers: string assembly.
- Parsing of numbers (`stol`, `stoul`, `get_bytes`, `time_period`) and of core lists: library calls.
- Regular expressions and line continuation of the configuration reader: lines come classified.
- Dom interfaces, reference counts, loaded modules, `Serialize` and `UnSerialize`: not part of this model.
- `WorkingThread` and the join of `mq_process` in the SAPI broker: the thread is never started.
- Exceptions thrown out of `ReplyWithCode` inside an `ExecuteThread`: they end the process.
- The 405 handlers, the WebSocket stub, command line, signals, `trim` and `explode`: plumbing.
