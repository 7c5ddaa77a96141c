# hart-link, modelled and proved in Dafny

hart-link is a HART host library: a streaming frame codec, a link runner that
schedules requests over one channel, WirelessHART host state and a HART-IP
session. This project models the parts of it that carry state or parse untrusted
bytes, and proves what they keep over every input and every run.

Code that changes things step by step is modelled by classes and loops
(`FrameDecoder`, `LinkRunner`, `QueueSet`, `MeshGraph`, `Schedule`,
`ReplayWindow`, `MeshManager`, `Trace`, `IpSession`, `BurstHub`); each method is
proved against a function on values, and the properties are proved about those
functions. The link runner's interplay with its clients is a state machine whose
steps may interleave in any order.

| file | module | models |
|---|---|---|
| `Basics.dfy` | Basics | options, results, saturating counters |
| `Wire.dfy` | Wire | checksum, addresses, delimiters, `Frame::encode` |
| `Decoder.dfy` | Decoder | `FrameDecoder`, its analysis step and statistics |
| `Fragmentation.dfy` | Fragmentation | the cut of the stream does not matter |
| `Tiling.dfy` | Tiling | soundness of emitted frames, accounting of every byte |
| `Verdicts.dfy` | Verdicts | exactly which bytes are accepted as which frame |
| `Recovery.dfy` | Recovery | repairs at work, and resynchronisation behind arbitrary bytes |
| `Literals.dfy` | Literals | frames and packets as literal bytes |
| `RoundTrip.dfy` | RoundTrip | printing and parsing whole streams, minimum capacity |
| `Operation.dfy` | Operation | requests, replies, Command 31 normalisation |
| `Exchange.dfy` | Exchange | one exchange: correlation and retry budgets |
| `Retries.dfy` | Retries | the retry rule in closed form, both directions |
| `Queues.dfy`, `Fairness.dfy` | Queues, Fairness | scheduler, selection, waiting bounds, shares |
| `Runner.dfy` | Runner | the runner's loop and its clients as a protocol |
| `Outcomes.dfy` | Outcomes | which outcome every request gets, by the steps of the run |
| `Shutdown.dfy` | Shutdown | stopping: progress, and exactly when everything is settled |
| `Waiting.dfy` | Waiting | how long a request waits, in every interleaving |
| `Topology.dfy` | Topology | mesh graph and routing |
| `Schedule.dfy` | Scheduling | superframe schedule |
| `Security.dfy` | Security | replay window |
| `Manager.dfy` | Management | join manager |
| `Trace.dfy` | Eviction, Tracing | bounded recorder |
| `HartIp.dfy` | HartIp | HART-IP packets and session |
| `Burst.dfy` | Bursts | unsolicited-message hub |

## What is worth knowing

- The decoder is independent of fragmentation whenever no limit clips a push. Two
  sufficient conditions are proved: the whole stream fits the buffer and yields
  fewer than 4096 events, or every read is moderate (at least 521 bytes short of
  the capacity and at most 7670 bytes), in which case the stream may be of any length.
- A refused candidate costs its preambles and its delimiter and nothing more, so a good
  frame behind a damaged one is received (`FrameRecovered`), unless an accepted frame
  runs into it or the decoder is still waiting for the end of an earlier candidate.
- The address and delimiter rejections of `analyze` cannot occur: `Checksum` is the
  only rejection ever emitted.
- A push is several atomic operations (src/service/queue_set.rs:476-483), and the
  protocol interleaves them with everything else. Two consequences are proved.
  A request whose push has passed the closed check but not yet appended its entry
  when the runner closes can be accepted and never answered (`StrandedRequest`);
  `ShutdownSettlesEverything` proves that this is the only way: every way of
  stopping settles everything if and only if no push stands there at that moment.
  And the counters the strict search reads can mislead it at a loop head. An entry
  not yet counted is invisible (`UncountedEntryIsHidden`); and an entry that is
  counted, on a queue with no push under way, can be hidden by a higher rank whose
  counter wrapped because an uncounted entry was taken and finished
  (`CountedEntryIsHidden`, a whole run). `LoopHeadSelection` says exactly when a
  request is taken.
- An entry that has been popped and not finished still counts for its queue's
  strict rank. `UnfinishedEntryHidesLowerRank` is about the queue interface alone:
  the runner finishes or returns every entry before it asks again.
- All strict ranks share one cursor. A strict queue that stays ready at the top rank
  is served within one turn (`StrictQueueWaitsBounded`, `StrictRequestTakenInTime`),
  but when a higher rank is served in between, a ready queue can be passed over by
  an equal one for ever (`EqualRankStarved`).
- A zero byte limit retains no Publish packet at all, not even one with an empty
  body, which would fit; `RetentionExact` gives the exact condition under which
  retention is the longest fitting suffix, and `EmptyBodyDropped` the failing packet.
- Raw use of Command 31 is ambiguous on the wire. `LogicalCommandExact` gives the
  exact condition under which the expected command is the requested one;
  `ReplyRoundTrip` proves that an answer reads back unchanged if and only if the
  command is not 31, `RawRepliesLost` shows two answers that do not, and
  `AnswerIsHeard` says what the caller gets in each case.
- The reply of an exchange is a function of the bytes received, the retry policy
  and the clock's answers; an action is repeated only after a busy or delayed reply.

## Model

| member | source | states |
|---|---|---|
| Wire.XorAppend | src/wire/mod.rs:14-16 | the checksum of a concatenation is the XOR of the checksums |
| Wire.AddressRoundTrip | src/wire/address.rs:109-141 | every valid address reads back from what was written, with either burst bit |
| Wire.AddressReread | src/wire/address.rs:109-141 | every slice of the right length reads as a valid address, and rewriting it changes only the burst bit |
| Wire.DelimiterFields | src/wire/frame.rs:172-185 | kind, layer, address form and expansion length packed in a delimiter all read back |
| Wire.DelimiterRebuild | src/wire/frame.rs:59-76 | a byte that names a frame kind is the delimiter of its own fields |
| Wire.EncodeFrame | src/wire/frame.rs:135-169 | filling the output field by field gives preambles, covered part and XOR of the covered part, or the first limit that is exceeded |
| Wire.EncodedBound | src/wire/frame.rs:7-8 | every valid frame encodes, in at most 522 bytes |
| Literals.ShortRequestBytes | src/wire/frame.rs:135-185 | the bytes of a short-address request |
| Literals.BurstBytes | src/wire/frame.rs:135-185 | the bytes of a burst message |
| Literals.LongResponseBytes | src/wire/frame.rs:135-185 | the bytes of a PSK response with a unique address and an expansion byte |
| Decoder.OnlyChecksumRefusals | src/wire/decoder.rs:322-354 | the only rejection the analysis can emit is a checksum mismatch, and the repaired flag is set exactly on repaired frames |
| Decoder.TallyTwice | src/wire/decoder.rs:235-273 | counting two stretches of events in turn is counting them together, saturation included |
| Decoder.RunTallied | src/wire/decoder.rs:184-273 | the statistics after any run of pushes are the tally of the run's events and byte totals |
| Decoder.FirstEventThenOthers | src/wire/decoder.rs:184-197 | producing up to n events is producing one and then the others from what is left |
| Decoder.FrameDecoder.constructor | src/wire/decoder.rs:157-170 | limits are clamped into their effective range and the decoder starts empty |
| Decoder.FrameDecoder.Push | src/wire/decoder.rs:184-197 | events, leftover buffer and all six counters after a push, as a function of the old buffer and the fragment |
| Decoder.FrameDecoder.Clear | src/wire/decoder.rs:210-212 | the buffer is emptied and the statistics stay |
| Decoder.FrameDecoder.AppendBounded | src/wire/decoder.rs:214-233 | the newest bytes that fit are kept and exactly the others are counted as overflow |
| Decoder.FrameDecoder.NextEvent | src/wire/decoder.rs:235-273 | terminates with the next event of the buffer, or none and the incomplete tail |
| Decoder.FrameDecoder.RetainPossiblePreambles | src/wire/decoder.rs:388-398 | keeps the trailing preambles, at most 255, and counts the rest as discarded |
| Decoder.FrameDecoder.DiscardBytes | src/wire/decoder.rs:400-406 | drops that many bytes from the front and counts them |
| Fragmentation.AnalyzeStable | src/wire/decoder.rs:275-386 | an analysis that reached a verdict reaches the same one whatever bytes follow |
| Fragmentation.TrimLosesNothing | src/wire/decoder.rs:371-398 | cutting a useless prefix to its last 255 preambles changes neither the events nor the tail of any continuation |
| Fragmentation.Continuation | src/wire/decoder.rs:235-273 | decoding a prefix and continuing from its tail is decoding the whole |
| Fragmentation.SettledIsShort | src/wire/decoder.rs:275-398 | a tail that waits for more is shorter than the longest frame |
| Fragmentation.EventsCostBytes | src/wire/decoder.rs:275-369 | every event costs at least two bytes |
| Fragmentation.FragmentsDoNotMatter | src/wire/decoder.rs:184-197 | any run of unclipped pushes gives the events, tail and discard count of the concatenated stream |
| Fragmentation.ShortStreamUnclipped | src/wire/decoder.rs:184-233 | a stream within capacity and under 4096 events is clipped by no cut |
| Fragmentation.AnyCutEqualsOnePush | src/wire/decoder.rs:184-197 | every cut of such a stream equals one push of it |
| Fragmentation.AnyCutCountsAlike | src/wire/decoder.rs:184-273 | every cut leaves the same six counters as one push |
| Fragmentation.SmallFragmentsUnclipped | src/wire/decoder.rs:184-233 | moderate reads are never clipped, however long the stream |
| Tiling.JudgedStandsFor | src/wire/decoder.rs:285-368 | every emitted frame is the layout of the bytes it consumed, up to the reserved delimiter bit, the burst bit and the check byte, with a residue its repair admits |
| Tiling.UnrepairedReencodes | src/wire/decoder.rs:285-368 | an unrepaired frame re-encodes to its bytes, or to them with bit 0x40 flipped in both the first address byte and the check byte |
| Tiling.StrictNeverRepairs | src/wire/decoder.rs:408-445 | under the strict policy every emitted frame is unrepaired with residue zero |
| Tiling.RunTiled | src/wire/decoder.rs:184-273 | over every run, clipped or not, the input is, in order and without gaps, genuine frames with enough preambles, refused candidates of exactly their preambles and one delimiter, skipped bytes that hold no candidate, bytes given up at the event limit and bytes lost to the capacity, then the tail |
| Tiling.BytesAccountedFor | src/wire/decoder.rs:184-273 | input length is encoded frame lengths plus discarded plus overflow plus buffered, over every run |
| Tiling.BufferStaysBounded | src/wire/decoder.rs:214-233 | between pushes the buffer is within capacity and shorter than one whole frame |
| Verdicts.VerdictExact | src/wire/decoder.rs:275-369 | a complete candidate is accepted as f if and only if f is what its bytes stand for, and refused if and only if nothing is; a refusal takes the preambles and the delimiter only and names the computed and the received check byte |
| Verdicts.ChosenIsEmitted | src/wire/decoder.rs:285-368 | whatever frame the bytes stand for, repaired or not, is the one emitted |
| Verdicts.SameFields | src/wire/decoder.rs:337-368 | bytes determine the frame they stand for, up to the repair |
| Recovery.FlippedDelimiterRepaired | src/wire/decoder.rs:285-334 | a frame whose reserved delimiter bit was flipped, before or after its check byte was computed, is received with that repair when it is enabled |
| Recovery.RewrittenAddressRepaired | src/wire/decoder.rs:424-445 | a frame whose short address was rewritten after its check byte was computed over the configured source node is received with that repair |
| Recovery.FrameRecovered | src/wire/decoder.rs:235-398 | behind any bytes a good frame is received, and decoding goes on behind it, unless an accepted frame of the prefix runs into it or the decoder still waits for a candidate of the prefix |
| Recovery.FrameRecoveredInPieces | src/wire/decoder.rs:184-197 | the same however the stream is cut into unclipped pushes |
| RoundTrip.EncodedTaken | src/wire/decoder.rs:275-369 | an encoded frame at the front of any stream is taken whole and unchanged, under every policy |
| RoundTrip.StreamDecodes | src/wire/decoder.rs:275-369 | decoding inverts the concatenated encodings of any list of frames |
| RoundTrip.StreamRoundTrip | src/wire/frame.rs:135-169 | any unclipped cut of a printed list parses back to the list with nothing left over |
| RoundTrip.BoundedStreamRoundTrip | src/wire/decoder.rs:184-197 | so does every cut of a list within the capacity and the event limit |
| RoundTrip.EndlessStreamRoundTrip | src/wire/decoder.rs:184-197 | so does every cut into moderate reads of a list of any length |
| RoundTrip.FrameArrives | src/wire/decoder.rs:214-233 | a frame arriving in any pieces comes out once, even when overflow drops surplus preambles |
| RoundTrip.MinimumCapacitySuffices | src/service/link.rs:1460-1462 | with the required capacity every frame arrives, only its preamble count possibly reduced and never below the minimum |
| Operation.LogicalCommandExact | src/service/link.rs:1970-1976 | the expected command is the requested one if and only if the request is not a raw Command 31 whose data names another command |
| Operation.RawCommand31IsAmbiguous | src/service/link.rs:1970-1976 | a concrete raw Command 31 request that is taken for command 300 |
| Operation.RequestFramed | src/operation/mod.rs:225-251 | a request is framed exactly when payload and expansion fit, with its own address, layer, preambles and expansion |
| Operation.RequestRoundTrip | src/operation/mod.rs:225-251 | the device reads the command and data that were requested if and only if the request is not a raw Command 31 with two data bytes or more |
| Operation.FramesDiffer | src/operation/mod.rs:225-251 | two such requests with equal frames are equal but for their retry safety |
| Operation.ReplyRoundTrip | src/operation/mod.rs:225-326 | an answer, expanded or not, reads back with the command and data that were sent if and only if the command is not 31; status bytes, address, layer, expansion and preambles always do |
| Operation.ReplyRefused | src/operation/mod.rs:279-326 | which frames are not replies, and the error each gets |
| Operation.RawReplyRead | src/operation/mod.rs:279-326 | an answer to raw Command 31 is refused as too short, or loses its first two data bytes to the command number |
| Operation.RawRepliesLost | src/operation/mod.rs:279-326 | two concrete answers to raw Command 31: one refused, one read as command 300 |
| Exchange.HeardReplyAnswers | src/service/link.rs:1837-1920 | whatever the channel does, a reply returned is not a burst and matches command, address, layer and expansion |
| Exchange.FirstMatchExact | src/service/link.rs:1879-1918 | the reply found is exactly the first one that matches command, address, layer and expansion and is no burst |
| Exchange.ListenToFragments | src/service/link.rs:1837-1920 | the reply is the first match among all decoded events, or a timeout |
| Exchange.ListenEnds | src/service/link.rs:1855-1878 | what ends a wait in which nothing matched: silence keeps the channel, a closed, failing or misbehaving channel is lost; what was heard stays buffered |
| Exchange.ReplyIndependentOfReads | src/service/link.rs:1837-1920 | the reply depends on the received bytes and not on how they were cut into reads |
| Exchange.AnswerIsHeard | src/service/link.rs:1837-1920 | an encoded answer received in any pieces is returned with its command, status and data if and only if the command is not 31; what the caller of raw Command 31 gets instead |
| Exchange.TransmissionsBounded | src/service/link.rs:1757-1835 | at most one transmission plus the three budgets |
| Exchange.ResentOnlyFor | src/service/link.rs:1757-1835 | a transmission is repeated only after a busy or delayed reply, or silence within the transport budget |
| Exchange.ActionResentOnlyAfterReply | src/service/link.rs:1757-1835 | an action is repeated only after a reply with code 32, 33 or 34 |
| Exchange.FinalReply | src/service/link.rs:1757-1835 | a returned reply is the last one received and carries none of those codes |
| Exchange.BudgetSpent | src/service/link.rs:1757-1835 | in a run whose attempts do not themselves report exhaustion, a busy, delayed or timeout error is returned only after that budget was spent in full |
| Exchange.AttemptFailures | src/service/link.rs:1837-1920 | an attempt fails by timeout or channel fault only, and the channel is lost exactly on a fault |
| Exchange.FailedSend | src/service/link.rs:1844-1854 | a failed and a timed-out send, each by its error, and nothing heard |
| Exchange.ExhaustionMeansSpent | src/service/link.rs:1757-1835 | over the attempts the channel and clock determine, a busy, delayed or timeout error means exactly the budget and one more such attempts |
| Retries.RetriesExact | src/service/link.rs:1757-1835 | the attempts are a complete run with this result if and only if every attempt but the last goes on within clock and budgets, the last does not, and the result is what its reply and the counts call for |
| Retries.ExchangeDetermined | src/service/link.rs:1757-1835 | if the first n attempts go on and attempt n does not, exactly n + 1 are made; a plain reply is returned however many silent, busy and delayed ones within budget came before |
| Retries.HeardAcrossAttempts | src/service/link.rs:1837-1920 | a reply that arrives partly before and partly after a repetition is heard |
| Retries.RepeatedAfterSilence | src/service/link.rs:1941-1945 | which requests are repeated after silence: those with explicit or catalogued safety other than Action |
| Exchange.LinkRunner.ExchangeOnce | src/service/link.rs:1837-1920 | one transmission, then the reply, buffer and channel state that listening defines; a failed send marks the channel unusable |
| Exchange.LinkRunner.FindMatch | src/service/link.rs:1879-1918 | passing over refusals, echoes, bursts and stale replies finds the first match |
| Exchange.LinkRunner.NextMove | src/service/link.rs:1786-1832 | the branches after an attempt decide as the retry rule does |
| Exchange.LinkRunner.Perform | src/service/link.rs:1757-1835 | every transmission is prefix plus encoding, the attempts are those the channel and the clock determine, they form a complete run of the retry rule that ends with the returned reply, and the channel is lost exactly when that reply is a channel fault |
| Exchange.LinkRunner.Repeat | src/service/link.rs:1780-1834 | the loop itself: the same for one frame, byte string and budget |
| Queues.QueueSet.constructor | src/service/queue_set.rs:377-396 | empty queues with all places free |
| Queues.QueueSet.TryPush | src/service/queue_set.rs:455-486 | refused exactly when the queue is unknown, the runner or its semaphores closed, or no place free; otherwise appended at the back and counted |
| Queues.QueueSet.FinishPush | src/service/queue_set.rs:470-486 | with nothing in between, a reserved place becomes a counted entry, or is released when the runner has closed |
| Queues.QueueSet.PushBack | src/service/queue_set.rs:479-482 | the entry joins the back and is not counted |
| Queues.QueueSet.CountPush | src/service/queue_set.rs:483-483 | the counter goes up by one, wrapping |
| Queues.QueueSet.HighestRank | src/service/queue_set.rs:496-519 | one pass finds the highest strict rank that counts an entry |
| Queues.QueueSet.PopStrictEntry | src/service/queue_set.rs:496-519 | head of the next ready queue at that rank; cursor moves there |
| Queues.QueueSet.PopWeightedEntry | src/service/queue_set.rs:520-556 | head of the current weighted queue within its quota, else of the next ready one |
| Queues.QueueSet.ChooseWeighted | src/service/queue_set.rs:520-556 | which weighted queue is served and how the cursor moves |
| Queues.QueueSet.PopScheduledEntry | src/service/queue_set.rs:488-494 | strict selection first, weighted selection otherwise |
| Queues.QueueSet.PopFrom | src/service/queue_set.rs:558-560 | the head of the named queue; the queue still counts it |
| Queues.QueueSet.PushFront | src/service/queue_set.rs:562-567 | a popped entry goes back to the front |
| Queues.QueueSet.FinishEntry | src/service/queue_set.rs:569-575 | the place of a popped entry becomes free |
| Queues.QueueSet.CloseRunner | src/service/queue_set.rs:586-593 | the first call closes the runner and the semaphores; further pushes are refused |
| Queues.QueueSet.SetPriority | src/service/queue_set.rs:406-416 | only the named queue's priority changes |
| Fairness.SelectionExact | src/service/queue_set.rs:488-556 | in every state: which kind of queue is selected, and exactly when none is |
| Fairness.SelectionWhenTidy | src/service/queue_set.rs:488-556 | with nothing popped and unfinished, an entry comes out exactly when some queue holds one, from the highest ready strict rank if any |
| Fairness.UnfinishedEntryHidesLowerRank | src/service/queue_set.rs:496-519 | a state of the queue interface in which an unfinished entry of a higher rank hides a ready lower rank |
| Fairness.PopApproaches | src/service/queue_set.rs:520-556 | each weighted pop serves a given ready queue or brings the cursor strictly closer to it |
| Fairness.WeightedQueueWaitsBounded | src/service/queue_set.rs:520-556 | a weighted queue that stays ready is served within any (sum of the other weights) + 1 consecutive weighted pops, whatever arrives and however many strict pops intervene |
| Fairness.OthersIsTheRest | src/service/queue_set.rs:520-556 | that bound is the total weight minus the queue's own |
| Fairness.QuotaRespected | src/service/queue_set.rs:520-556 | in every run no weighted queue is served beyond its weight in a row while another weighted queue is ready |
| Fairness.StrictQueueWaitsBounded | src/service/queue_set.rs:496-519 | a strict queue that stays ready at the top rank is passed over at most n - 1 times |
| Fairness.EqualRankStarved | src/service/queue_set.rs:496-519 | with a higher rank served every other time, a strict queue that always holds a request is never served although every other selection is at its rank |
| Fairness.RoundsHappen | src/service/queue_set.rs:496-519 | the states of that run are made of each other by one selection and new arrivals |
| Fairness.PatternFollowed | src/service/queue_set.rs:520-556 | under full backlog each weighted pop takes the next place of the weight pattern |
| Fairness.SharesAreExact | src/service/queue_set.rs:520-556 | from a fresh cursor under full backlog, any (sum of weights) consecutive weighted pops serve each queue exactly its weight |
| Runner.InvariantStep | src/service/link.rs:1540-1690 | every step of the runner or a client keeps placement, wrapped counters, configuration, justification, conservation and order |
| Runner.ReachableInvariant | src/service/link.rs:1540-1690 | so all of them hold in every state of every interleaving |
| Runner.LoopHeadConservation | src/service/link.rs:1540-1592 | at every loop head, and after shutdown, accepted requests are exactly those completed, failed, cancelled or still queued, and each counter shows the entries less the pushes not yet counted |
| Runner.LoopHeadSelection | src/service/link.rs:1594-1613 | at every loop head a request is taken if and only if some weighted queue holds one or some strict queue that does has the highest rank whose counter shows something; it is the head of its queue, and of a leading strict queue if there is one; with every appended entry counted this is the highest ready strict rank, and some request whenever there is one |
| Runner.UncountedEntryIsHidden | src/service/queue_set.rs:476-519 | a run to a loop head at which a strict queue holds an entry that is not counted yet and nothing can be taken |
| Runner.CountedEntryIsHidden | src/service/queue_set.rs:496-575 | a whole run to a loop head at which a counted request is hidden by the wrapped counter of an empty queue of a higher rank |
| Runner.RunnerNeverStuck | src/service/link.rs:1540-1690 | until it has stopped the runner always has a step of its own |
| Runner.CapacityRespected | src/service/queue_set.rs:286-298 | entries plus followers held by the runner never exceed a queue's capacity |
| Runner.SharedOnlyWithEquals | src/service/link.rs:1615-1674 | a reply is shared only by a read-only leader with an equal request, equal policy and no prefix on either side |
| Outcomes.SettledExactly | src/service/link.rs:1540-1690 | every settlement of every run: cancelled if and only if the waiter was gone, completed by a leader if and only if its exchange had succeeded and the request led it or followed and was answered in time, failed in exactly the other cases: late, failed exchange, shutdown |
| Outcomes.OccupiedSince | src/service/link.rs:1563-1588 | followers are answered or returned only after an exchange of their leader ended so |
| Outcomes.LeadsAnExchange | src/service/link.rs:1543-1562 | a request neither late nor abandoned leads an exchange, gathering first exactly if it is read-only without prefix and coalescing is on |
| Outcomes.EqualsFollow | src/service/link.rs:1627-1645 | an equal request whose waiter is there becomes a follower |
| Outcomes.GatheringEnds | src/service/link.rs:1615-1650 | gathering ends only at the limit, at the end of the queue or before a request that differs |
| Runner.FailureRestoresTheQueue | src/service/link.rs:1615-1680 | after a failed leader its queue is what it was, in order, minus identical requests whose waiter was gone, plus later arrivals at the back |
| Shutdown.ShutdownProgress | src/service/link.rs:1682-1690 | shutdown ends: its steps consume work that no client step adds to |
| Shutdown.StoppedSettledIff | src/service/link.rs:1682-1690 | once stopped, every accepted request has exactly one outcome if and only if no queue holds an entry |
| Shutdown.QuietShutdown | src/service/link.rs:1682-1690 | with no push between its check and its append, everything is settled and stays settled |
| Shutdown.StrandedRequest | src/service/queue_set.rs:470-486 | from any other loop head there is a way of stopping that leaves an accepted request without outcome |
| Shutdown.ShutdownSettlesEverything | src/service/link.rs:1682-1690 | from a loop head of any run, every way of stopping settles every accepted request exactly once if and only if no push stands between its check and its append |
| Waiting.Followed | src/service/link.rs:1615-1680 | a request followed through queue, candidate and follower positions is where the model says, or leads an exchange or had its outcome |
| Waiting.NobodyOvertakes | src/service/link.rs:1615-1680 | no step puts a request of the same queue ahead of it, coalescing and requeueing included, and each selection of the queue brings it one place on |
| Waiting.RequestTakenInTime | src/service/queue_set.rs:520-556 | in every interleaving with fixed priorities, a request of a weighted queue with k ahead of it is taken within (k + 1) times (the other weights + 1) weighted selections |
| Waiting.StrictRequestTakenInTime | src/service/queue_set.rs:496-519 | in every interleaving with fixed priorities whose strict selections are all at its rank, a request of a strict queue with k ahead of it is taken within (k + 1) times the number of queues such selections |
| Topology.RunsStayCoherent | src/mesh/topology.rs:46-79 | after any run of updates adjacency agrees with the links and both ends of every link exist |
| Topology.GraphIsItsHistory | src/mesh/topology.rs:46-79 | after any run, every node and link is exactly what the last relevant update since a removal said |
| Topology.HopExact | src/mesh/topology.rs:132-148 | a transmission is possible exactly over a last-reported link that reaches the threshold, to an active node |
| Topology.MeshGraph.UpsertNode | src/mesh/topology.rs:46-49 | the node is stored, its links stay, the previous state comes back |
| Topology.MeshGraph.RemoveNode | src/mesh/topology.rs:52-63 | the node goes with all its links, in both indexes, and nothing else |
| Topology.MeshGraph.UpdateLink | src/mesh/topology.rs:66-79 | succeeds exactly for two known distinct nodes and a ratio, and then records the link in both indexes |
| Topology.MeshGraph.Route | src/mesh/topology.rs:82-115 | a route comes back if and only if one exists over active nodes and good links; it is one, repeats no node and is of minimum length; the search terminates |
| Topology.ReconstructRoute | src/mesh/topology.rs:295-308 | following predecessors terminates with a path of distinct nodes of the recorded distance |
| Scheduling.AcceptedIffItFits | src/mesh/topology.rs:204-238 | a cell is accepted if and only if some position keeps the schedule valid |
| Scheduling.ObjectionExact | src/mesh/topology.rs:204-230 | each refusal if and only if its cause is the first that applies |
| Scheduling.InsertionKeepsOrder | src/mesh/topology.rs:204-238 | insertion at the found place keeps the cells sorted, in range and conflict-free |
| Scheduling.RemovalKeepsOrder | src/mesh/topology.rs:241-246 | so does removing a device |
| Scheduling.ScheduleBounded | src/mesh/topology.rs:204-238 | at most 16 cells per timeslot of the superframe in all |
| Scheduling.SlotBounded | src/mesh/topology.rs:204-238 | at most 16 cells in any one timeslot |
| Scheduling.InsertionPoint | src/mesh/topology.rs:230-237 | binary search finds the place of a key |
| Scheduling.Schedule.Insert | src/mesh/topology.rs:204-238 | reports the first objection and changes nothing, or inserts the cell at its place |
| Scheduling.Schedule.RemoveDevice | src/mesh/topology.rs:241-246 | removes exactly the cells of the device, in order, and counts them |
| Security.AcceptRefines | src/mesh/security.rs:55-82 | the window accepts exactly counters never accepted and less than 64 below the highest, then stands for the larger set; a refusal changes nothing and names the right reason |
| Security.RunRefines | src/mesh/security.rs:55-82 | over every run the window stands for the set it accepted |
| Security.NeverTwice | src/mesh/security.rs:55-82 | an accepted counter is refused ever after |
| Security.ReplayWindow.AcceptCounter | src/mesh/security.rs:55-82 | result and new fields of one call |
| Security.ReplayWindow.Highest | src/mesh/security.rs:85-87 | the largest accepted counter, or none exactly when none was accepted |
| Management.RunInvariant | src/mesh/manager.rs:94-172 | over any run of allow, revoke, join, neighbor reports and schedule edits: graph and schedule stay valid, addresses are accounted for, windows stand for accepted counters |
| Management.NicknamesNeverShared | src/mesh/manager.rs:112-148 | no short address is ever given to two devices |
| Management.CountersNeverReused | src/mesh/manager.rs:112-172 | a join is accepted only when authentic, admitted, for this network and with a counter never accepted under the same key |
| Management.JoinAcceptedIff | src/mesh/manager.rs:112-172 | an authentic join is accepted if and only if its counter is admissible and the device has an address or one is left |
| Management.DecisionExact | src/mesh/manager.rs:112-172 | each decision and each error on a join, if and only if |
| Management.AddressGiven | src/mesh/manager.rs:112-148 | an accepted device keeps the address it holds or gets the next one, and nothing else in the graph changes |
| Management.ExhaustedIff | src/mesh/manager.rs:130-148 | addresses are given without gaps, so the space is exhausted exactly when all 65535 were given |
| Management.RefusalChangesNothing | src/mesh/manager.rs:112-172 | a refused join leaves replay, graph and addresses as they were |
| Management.ForgettingIsComplete | src/mesh/manager.rs:94-110 | replacing a key or revoking leaves no node, link, cell or window of the device |
| Management.OthersUntouched | src/mesh/manager.rs:94-110 | admitting or revoking one device leaves every other device's node, links, cells, key and window alone |
| Management.AdmittedWithKey | src/mesh/manager.rs:94-102 | an admitted device is listed with the key given; a first admission changes nothing else |
| Management.MeshManager.constructor | src/mesh/manager.rs:78-91 | an empty network whose next address is 1 |
| Management.MeshManager.AllowDevice | src/mesh/manager.rs:94-102 | the device is admitted, and a previous session of it forgotten |
| Management.MeshManager.RevokeDevice | src/mesh/manager.rs:104-110 | the device and its session are forgotten |
| Management.MeshManager.ApplyJoin | src/mesh/manager.rs:112-148 | decision and new state of a join |
| Management.MeshManager.Authenticate | src/mesh/manager.rs:154-172 | nothing changes unless the key holder authenticates |
| Eviction.FittingIsLongest | src/trace.rs:146-163 | the retained part is the longest suffix within both limits |
| Eviction.RetainedIsLongestSuffix | src/trace.rs:146-163 | evicting push by push retains the longest fitting suffix of everything not oversized |
| Tracing.TraceKeepsLongestSuffix | src/trace.rs:146-163 | so for a trace after any sequence of records |
| Tracing.NothingUnaccounted | src/trace.rs:201-206 | retained plus dropped is pushed, in records and in bytes, over any run |
| Tracing.Trace.Push | src/trace.rs:146-163 | the new records, and drop counters that balance |
| Tracing.Trace.NoteDropped | src/trace.rs:201-206 | one record and its bytes are counted as dropped |
| HartIp.DecodeEncoded | src/ip.rs:102-147 | every encodable packet decodes to itself |
| HartIp.EncodeDecoded | src/ip.rs:102-147 | every decodable byte string is the encoding of its packet |
| HartIp.DecodeExact | src/ip.rs:121-147 | a byte string decodes to a packet if and only if it is its encoding within the limit |
| Literals.IpResponseBytes | src/ip.rs:102-119 | the bytes of a HART-IP response |
| Literals.IpTypeBytes | src/ip.rs:35-44 | the message types on the wire |
| HartIp.ReceiveTakesOnePacket | src/ip.rs:468-510 | a receive that leaves the session usable took exactly one packet, oversized bodies and bad message types included |
| HartIp.ReceiveEnds | src/ip.rs:468-510 | when a receive keeps the session usable, what it consumed, and which error each other ending gets |
| HartIp.ExchangeKeepsFraming | src/ip.rs:512-568 | while usable, whole packets were taken; success is a status-0 response to this request after at most the permitted skips; the sequence error occurs exactly one skip beyond |
| HartIp.PacketsDecide | src/ip.rs:530-568 | on a stream of encoded packets, all but the last passed over within the permitted skips and in time, the last packet decides: returned if and only if it is the status-0 response to this request, and each error is told by what it is; publications and skips are counted |
| HartIp.RetentionIsLongestSuffix | src/ip.rs:624-644 | between takes, under every limit: nothing new is retained when the byte limit is zero, and otherwise the retained Publish packets are the longest fitting suffix of those not oversized |
| HartIp.RetentionExact | src/ip.rs:624-644 | from an empty queue, retention is the longest fitting suffix of the packets not oversized if and only if the byte limit is positive, the count limit is zero or no body is empty |
| HartIp.EmptyBodyDropped | src/ip.rs:624-644 | a packet with an empty body that fits a zero byte limit and is dropped |
| HartIp.SequencesDiffer | src/ip.rs:463-464 | requests fewer than 65536 completed sends apart carry different sequence numbers |
| HartIp.IpSession.Send | src/ip.rs:425-465 | completes exactly one encoded packet under the next sequence number, wrapping after 65535, or fails without using a number up; a failed or timed-out write makes the session unusable |
| HartIp.IpSession.Receive | src/ip.rs:468-487 | result and bytes consumed; i/o errors, impossible lengths and timeouts make the session unusable, other errors do not |
| HartIp.IpSession.ReceiveUnbounded | src/ip.rs:489-510 | result and bytes taken of header, length test and body |
| HartIp.IpSession.ReceiveBody | src/ip.rs:498-510 | the rest of a packet: skipped when oversized, decoded otherwise, or all there is before the stream or timer gives up |
| HartIp.IpSession.DiscardExact | src/ip.rs:660-671 | skipping in chunks takes exactly the length, or all there is |
| HartIp.IpSession.Exchange | src/ip.rs:512-568 | the session invariant, the result, the sequence number used, and what was consumed, skipped, retained and dropped: retained plus dropped is what was there plus what was heard |
| HartIp.IpSession.AwaitResponse | src/ip.rs:536-568 | the receive loop terminates with the outcome of the stream, the timers and the expectation, and its retained and dropped Publish packets balance |
| HartIp.IpSession.AwaitOne | src/ip.rs:537-567 | one turn of that loop: what was received, judged, retained and counted |
| HartIp.IpSession.Weigh | src/ip.rs:538-567 | one received packet: verdict, skip count, retention and a balanced drop counter |
| HartIp.IpSession.RetainPublished | src/ip.rs:624-644 | eviction from the front until the packet fits, with a balanced drop counter |
| HartIp.IpSession.TakePublished | src/ip.rs:618-622 | the oldest retained packet, and the byte count stays exact |
| Bursts.RememberAgrees | src/service/burst.rs:402-426 | map and recency queue agree after every delivery |
| Bursts.EvictsLeastRecent | src/service/burst.rs:407-414 | a full memory forgets a least recently delivered key and only that one |
| Bursts.NothingForgotten | src/service/burst.rs:402-426 | otherwise nothing is forgotten |
| Bursts.RunAgrees | src/service/burst.rs:375-487 | over every run the queue lists the remembered keys once each, in delivery order, within the limit |
| Bursts.SuppressionEnds | src/service/burst.rs:393-401 | suppressed duplicates never refresh the timestamp: the payload is delivered again once the window has passed |
| Bursts.MemoryIsLastDelivery | src/service/burst.rs:375-487 | over every run a key is remembered exactly when it was delivered and not reset or evicted since, with the payload and time of its last delivery |
| Bursts.SuppressedExactly | src/service/burst.rs:393-401 | over every run a message is suppressed if and only if that last delivery had its payload and the window has not passed |
| Bursts.RunBooked | src/service/burst.rs:219-367 | over every run the reserved slots are the sum of the active capacities and within the limit |
| Bursts.SubscribeThenUnsubscribe | src/service/burst.rs:306-367 | subscribing succeeds exactly within all limits, and ending the subscription restores the reservation |
| Bursts.SubscribeRefused | src/service/burst.rs:306-367 | why a subscription is refused, and that an accepted one is stored as asked for |
| Bursts.ListedExactly | src/service/burst.rs:434-446 | exactly the subscribers to the key whose delivery turned out so, once each and in order |
| Bursts.OnlyTheGoneAreRemoved | src/service/burst.rs:434-455 | delivery removes exactly the subscribers to the key that are gone; slow ones and all others stay |
| Bursts.BurstHub.TrySubscribe | src/service/burst.rs:306-367 | result and bookings of one subscription |
| Bursts.BurstHub.DropSubscription | src/service/burst.rs:219-231 | the slots of a dropped subscription are returned |
| Bursts.BurstHub.TryPublish | src/service/burst.rs:375-455 | invalid messages change only their counter; otherwise memory, all counters, bookings and the messages handed out after suppression or delivery |
| Bursts.BurstHub.ResetKey | src/service/burst.rs:466-476 | one key is forgotten in map and queue |
| Bursts.BurstHub.ResetAll | src/service/burst.rs:479-487 | every key is forgotten |

## Left out

- Sockets, serial ports, Tokio timers and `Notify`: reads, writes and clock answers are arbitrary inputs.
- Atomicity: `pop_scheduled` is one step, as is each other call of the runner on a queue with its own bookkeeping; a client's push is four steps.
- Queues.QueueSet.CloseRunner: waking the waiters is not modelled; the protocol lets places be reserved for a while after closing, which the check of the push then refuses.
- Queues.QueueSet.FinishPush: states the sequential effect; its interleavings are those of the protocol's steps.
- Runner: publication of bursts, idle input and late-response draining inside the loop, event broadcasts and the started, coalesced and id counters.
- `LinkClient`, `QueueClient`, builders, `validate` and `with_*` methods, `close_input`, waiting pushes with a deadline, the packing of `QueuePriority` in 32 bits.
- `CommandPolicy` and `CommandRouting`; the command catalog is a parameter.
- Typed operations, text packing, block transfer, JSON and FDI catalogs, PCAP-NG output, recording and replay channels, emulator, telemetry, CLI: easy fixed-layout or formatting code.
- Discovery, health and snapshot services: pacing around the client.
- Key zeroisation, and the authentication callback, which is an arbitrary boolean.
- Management.RunInvariant: node edits through `graph_mut` are excluded, since they can assign any address; link reports and schedule edits are included.
- `f32` reliabilities are non-finite or exact reals; a device identifier is a number below 2^64.
- The order in which `route` visits neighbors is left open: the result holds for every order.
- HartIp.IpSession.Send: `completed` lists packets whose write and flush completed; how many bytes of a failed write reached the wire is not modelled.
- `IpSession`: connection set-up, logical open and close, `enforce_published_limits`, snapshots, and `IpPacketChannel`; an externally dropped future is not modelled.
- Bursts.RunAgrees: assumes that the monotonic clock does not go back.
- Subscriber channels of the burst hub: whether a delivery is taken, refused as full or finds the subscriber gone is an arbitrary input.
- Saturating additions on in-memory sizes that cannot saturate are plain additions; statistics counters do saturate at 2^64 - 1.
