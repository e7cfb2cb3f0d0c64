# GazelleMQ, verified

GazelleMQ is a publish-subscribe broker. Publishers send framed messages over TCP; the broker groups them
into batches of one type, passes the batches through a lock-free bounded queue, and one thread broadcasts
each batch to the subscribers, whose connections cope with sends the kernel answers in part. Commands on a
third kind of connection say who is subscribed to what, and subscribers may also introduce themselves with
an HTTP upgrade request.

This project is a Dafny model of that pipeline and of what it guarantees. `dafny verify dfyconfig.toml`
checks all of it.

**The queue.** `MpmcModel` is a transition system in which every `fetch_add`, compare-exchange, load and
store of a turn, construction, move and destruction is a step of its own, for any number of threads that
mix `emplace`, `try_emplace`, `pop` and `try_pop`, and any capacity from 1. Blocking operations claim
tickets before their slot is ready, so the tail may pass the head and the head may be more than one capacity
ahead; `MpmcInvariant` holds in all of these states. `MpmcTheorems` derives mutual exclusion, exactly-once
delivery in ticket order, the soundness of check-then-claim, what a `false` answer means, and that claimed
work can always be finished; `MpmcProgress` shows that every fair schedule does finish it.
`MpmcQueue` is the same queue as counters and arrays changed in place, one method per atomic action; its
`Interleave` runs any schedule. `MpmcCalls` is the four operations as the code they are, with other threads
acting between any two of their actions.

**Text.** `Frames` has frames and numerals; `TextTheorems` says what the text primitives of the code compute on
every text, without naming them: `std::stoul`, `strtol`, `isspace`, `tolower`, C strings.

**The publisher.** `MessageBatch` is the growable buffer with its swap-based moves. `PublisherModel` reads a
stream one byte at a time; `PublisherHandler` is the handler's indexed loop, proved to do the same.
`PublisherTheorems` and `PublisherConservation` are about whole connections; `PublisherLoss` and
`PublisherLossExact` decide which lists of messages can lose one.

**The subscriber.** `SubscriberModel` is the pump's state machine, `SubscriberHandler` and `SubscriberServer`
the code in place, `MessageQueue` the queue as its users see it, `SubscriberTheorems` the results.

**End to end.** `BrokerModel` puts publishers, queue, draining thread, subscribers and kernel into one
transition system, and `BrokerTheorems` follows bytes from one client to the other through every
interleaving. `BrokerProgress` shows that no state of it is a dead end, and that every stream of frames can be
received and reach its subscribers.

**HTTP headers.** `HttpModel` and `HttpParser` are the incremental header parser. `HttpTheorems` gives a
grammar that every byte stream fits in exactly one way, and the parser's complete state for each of its
five shapes, computed from the lines by a definition that does not mention the parser (header fields as in
section 3.2 of RFC 7230, the upgrade request as in section 4.2.1 of RFC 6455).

**Commands.** `CommandModel`, `CommandHandler`, `CommandTheorems` and `SubscriptionTheorems` go from the
bytes of a command connection to the tables of any number of subscribers that come and go.

## Where the code surprises

- A batch refuses at 32768 bytes but counts as full only above; `forwardMessage` ignores the refusal. A
  message of the open batch's type that arrives at exactly 32768 bytes is lost (`LossExactly` says when,
  `BytesConserved` what that means for the stream, `SecondIsLost` shows it). A client can tell from its
  messages alone whether that can happen (`NeverLosesExactly`). The comment on `append` speaks of remaining
  space, which is not what decides.
- An empty message type looks like "no batch yet", so an untyped message can end up in a batch of another
  type (`BatchTypedExactly`, `EmptyTypeMixes`).
- A message without content is delivered when the next byte arrives, not when its frame is complete, so the
  last message of a stream is missing exactly if it has no content (`ReadExactly`, `EmptyContentWaits`).
- The guard in `advance` compares an unsigned difference with 0 and is always true, and the sum it tests the
  capacity with may wrap (`Advance`).
- A message completed in the middle of a receive stays in the open batch until another message completes; if
  none does, it is not sent (`OpenEmptyExactly`, `OpenIsMissing`).
- `isSubscribed` asks whether the subscription starts with the message type, not the other way round.
- `takePendingSubscriptions` erases by name after having moved the names away, so empty entries stay behind
  (`ShellsAreInert`).
- Only leading white space of a header value is dropped; section 3.2 of RFC 7230 drops trailing white space
  too. After a first line with status 204 or 304 no header is read at all.
- A subscriber takes the subscriptions waiting for it only when its acknowledgement was sent, while commands
  find it as soon as its name is known. The order in which subscribing and connecting happen therefore never
  changes which values it has, but can change a timeout (`SubscribedAsSeen`, `HandshakeReorders`).
- Bytes of a command stream that do not end with a carriage return are held back, complete commands
  included, so what has been processed of such a stream depends on how it was cut
  (`CallsIndependentExactly`, `CutMatters`).

## Model

| member | source | states |
|---|---|---|
| `MpmcTheorems.MutualExclusion` | lib/MPMCQueue/MPMCQueue.hpp:173-261 | In every interleaving of any number of threads, two threads in the construct, move, destroy or turn-store section of the same slot are the same thread with the same ticket |
| `MpmcTheorems.TurnMeaning` | lib/MPMCQueue/MPMCQueue.hpp:279-281 | Slot j shows turn 2r exactly while ticket r*capacity+j is unpublished and the ticket one round before is consumed, and 2r+1 exactly while it is published and not consumed; in both cases all earlier tickets of the slot are consumed; outside critical sections the storage is raw, respectively holds precisely that ticket's value |
| `MpmcTheorems.StorageReady` | lib/MPMCQueue/MPMCQueue.hpp:99-111 | A thread about to construct finds raw storage, one about to move finds the live value of its own ticket, one about to destroy finds what was moved from |
| `MpmcTheorems.ExactlyOnce` | lib/MPMCQueue/MPMCQueue.hpp:173-182 | Over every run each ticket is reported pushed once by its owner and popped once by its owner, the pop returns the value of its ticket and comes after the push; no value is returned twice or was never pushed |
| `MpmcTheorems.PushOrder` | lib/MPMCQueue/MPMCQueue.hpp:173-204 | A push that returned before another thread began its own has the smaller ticket |
| `MpmcTheorems.PopOrder` | lib/MPMCQueue/MPMCQueue.hpp:232-261 | The same for pops |
| `MpmcTheorems.CheckedPushSlotStays` | lib/MPMCQueue/MPMCQueue.hpp:187-195 | Once try_emplace saw its slot free, no steps of any threads change that while the ticket is unclaimed; the compare-exchange then claims a slot that is still free |
| `MpmcTheorems.CheckedPopSlotStays` | lib/MPMCQueue/MPMCQueue.hpp:243-252 | Once try_pop saw its slot full, no steps of any threads change that while the ticket is unclaimed; the compare-exchange then claims a slot that still holds its value |
| `MpmcTheorems.TryPopFalseJustified` | lib/MPMCQueue/MPMCQueue.hpp:253-259 | When try_pop is about to return false, its last turn load happened at an instant of the run when the tail was that ticket and nothing had been published under it |
| `MpmcTheorems.TryEmplaceFalseJustified` | lib/MPMCQueue/MPMCQueue.hpp:196-202 | When try_emplace is about to return false, at its last turn load the head was that ticket and the pop ticket one capacity before had not released the slot |
| `MpmcTheorems.PopRefusesExactly` | lib/MPMCQueue/MPMCQueue.hpp:253-259 | A refusal of try_pop is reported in one step only, and exactly if the tail is still the ticket that was checked |
| `MpmcTheorems.PushRefusesExactly` | lib/MPMCQueue/MPMCQueue.hpp:196-202 | The same for try_emplace and the head |
| `MpmcTheorems.PopRefusedJustified` | lib/MPMCQueue/MPMCQueue.hpp:242-261 | Every refusal of try_pop that any run reports: the tail was the ticket it names when it was reported and when the call last read the turn, and nothing had been published under it |
| `MpmcTheorems.PushRefusedJustified` | lib/MPMCQueue/MPMCQueue.hpp:184-204 | Every refusal of try_emplace that any run reports: the head was the ticket it names at both moments, and the pop ticket one capacity before had not released the slot |
| `MpmcTheorems.NoDeadlock` | lib/MPMCQueue/MPMCQueue.hpp:178-181 | While a ticket claimed by both sides is unfinished, a thread that holds the smallest such ticket has a step that is not a spin |
| `MpmcTheorems.AdvanceOldest` | lib/MPMCQueue/MPMCQueue.hpp:235-239 | That step brings the ticket strictly closer to being released and claims nothing new |
| `MpmcTheorems.ClaimedWorkFinishes` | lib/MPMCQueue/MPMCQueue.hpp:173-261 | From every reachable state some schedule of steps alone releases every ticket that both sides have claimed |
| `MpmcProgress.FairSchedulesFinish` | lib/MPMCQueue/MPMCQueue.hpp:173-261 | Every schedule in which each thread keeps stepping releases all tickets both sides had claimed, within seven rounds a ticket, whatever else is called and claimed meanwhile and however uneven the rounds are |
| `MpmcProgress.OthersLeave` | lib/MPMCQueue/MPMCQueue.hpp:173-261 | No call or step of another thread moves the oldest matched ticket away from being released |
| `MpmcProgress.RoundProgresses` | lib/MPMCQueue/MPMCQueue.hpp:178-181 | After actions in which each thread steps at least once, the oldest matched ticket is released or strictly closer to it |
| `MpmcTheorems.QuiescentIsRingBuffer` | lib/MPMCQueue/MPMCQueue.hpp:129-160 | With no thread inside an operation the queue is a ring buffer: tickets tail to head are stored each in its slot, at most capacity of them, and all other slots are raw |
| `MpmcTheorems.ExecLater` | lib/MPMCQueue/MPMCQueue.hpp:173-261 | Counters, turns and histories only grow along any run |
| `MpmcTheorems.RunInv` | lib/MPMCQueue/MPMCQueue.hpp:173-261 | The invariant that ties turns, tickets, owners, program counters and storage together is kept by every run |
| `MpmcInvariant.CriticalSlotExclusive` | lib/MPMCQueue/MPMCQueue.hpp:92-116 | Two critical threads of one slot are one thread, from the invariant |
| `MpmcInvariant.PreserveNext` | lib/MPMCQueue/MPMCQueue.hpp:173-261 | Every single atomic step keeps the invariant |
| `MpmcQueue.Queue.constructor` | lib/MPMCQueue/MPMCQueue.hpp:129-160 | The queue in place starts as an empty queue |
| `MpmcQueue.Queue.StepPush` | lib/MPMCQueue/MPMCQueue.hpp:173-204 | Each atomic action of emplace and try_emplace on the shared counters and arrays is the step of the transition system |
| `MpmcQueue.Queue.StepPop` | lib/MPMCQueue/MPMCQueue.hpp:232-261 | Each atomic action of pop and try_pop on the shared counters and arrays is the step of the transition system |
| `MpmcQueue.Queue.CompareExchangeHead` | lib/MPMCQueue/MPMCQueue.hpp:191-191 | Claims the ticket only if the head still is the expected one, and returns the head it found |
| `MpmcQueue.Queue.ClaimPush` | lib/MPMCQueue/MPMCQueue.hpp:176-176 | The claim of emplace draws the head and leaves the thread at the spin loop of that ticket |
| `MpmcQueue.Queue.AwaitPush` | lib/MPMCQueue/MPMCQueue.hpp:178-179 | The spin loop of emplace goes on exactly when the slot shows turn 2r |
| `MpmcQueue.Queue.LoadHead` | lib/MPMCQueue/MPMCQueue.hpp:187-187 | try_emplace starts from the head it loads |
| `MpmcQueue.Queue.CheckPush` | lib/MPMCQueue/MPMCQueue.hpp:190-190 | try_emplace goes on to claim exactly when the slot shows turn 2r |
| `MpmcQueue.Queue.CasPush` | lib/MPMCQueue/MPMCQueue.hpp:191-191 | The claim of try_emplace succeeds exactly on the head it checked, and otherwise continues with the one found |
| `MpmcQueue.Queue.ReloadHead` | lib/MPMCQueue/MPMCQueue.hpp:196-202 | try_emplace gives up exactly when the head is still the one it checked |
| `MpmcQueue.Queue.Construct` | lib/MPMCQueue/MPMCQueue.hpp:180-180 | The value is put into the slot of the ticket |
| `MpmcQueue.Queue.Publish` | lib/MPMCQueue/MPMCQueue.hpp:181-181 | The slot shows turn 2r+1 and the push is reported |
| `MpmcQueue.Queue.ClaimPop` | lib/MPMCQueue/MPMCQueue.hpp:233-233 | The claim of pop draws the tail and leaves the thread at the spin loop of that ticket |
| `MpmcQueue.Queue.AwaitPop` | lib/MPMCQueue/MPMCQueue.hpp:235-236 | The spin loop of pop goes on exactly when the slot shows turn 2r+1 |
| `MpmcQueue.Queue.LoadTail` | lib/MPMCQueue/MPMCQueue.hpp:243-243 | try_pop starts from the tail it loads |
| `MpmcQueue.Queue.CheckPop` | lib/MPMCQueue/MPMCQueue.hpp:246-246 | try_pop goes on to claim exactly when the slot shows turn 2r+1 |
| `MpmcQueue.Queue.CasPop` | lib/MPMCQueue/MPMCQueue.hpp:247-247 | The claim of try_pop succeeds exactly on the tail it checked, and otherwise continues with the one found |
| `MpmcQueue.Queue.ReloadTail` | lib/MPMCQueue/MPMCQueue.hpp:253-259 | try_pop gives up exactly when the tail is still the one it checked |
| `MpmcQueue.Queue.MoveOut` | lib/MPMCQueue/MPMCQueue.hpp:248-248 | A live value is moved out of the slot and kept for the return |
| `MpmcQueue.Queue.Destroy` | lib/MPMCQueue/MPMCQueue.hpp:249-249 | The slot becomes raw storage |
| `MpmcQueue.Queue.Release` | lib/MPMCQueue/MPMCQueue.hpp:250-250 | The slot shows turn 2r+2 and the pop is reported with its value |
| `MpmcQueue.Queue.Interleave` | lib/MPMCQueue/MPMCQueue.hpp:173-261 | Running any schedule of calls and steps on the counters and arrays leaves exactly the state of that run, so the run theorems are about this code |
| `MpmcCalls.Emplace` | lib/MPMCQueue/MPMCQueue.hpp:173-182 | emplace as straight-line code, with any actions of other threads between its own: it is a schedule of the transition system in program order, and it returns with its push reported under its ticket, which carries its value, or still spins |
| `MpmcCalls.TryEmplace` | lib/MPMCQueue/MPMCQueue.hpp:184-204 | try_emplace as the loop it is, under the same interference: true with a push of its value reported, false with a refusal reported |
| `MpmcCalls.Pop` | lib/MPMCQueue/MPMCQueue.hpp:232-240 | pop under the same interference: it returns the value reported for its ticket, which is the one pushed under it, or still spins |
| `MpmcCalls.TryPop` | lib/MPMCQueue/MPMCQueue.hpp:242-261 | try_pop under the same interference: true with the reported value, the one pushed under its ticket, false with a refusal reported |
| `MpmcCalls.FinishPop` | lib/MPMCQueue/MPMCQueue.hpp:237-239 | From a slot seen full, move, destroy and the turn store always go through and report the value taken |
| `MessageBatches.MessageBatch.Append` | server/MessageBatch.hpp:62-79 | Appends all bytes, or refuses and changes nothing exactly from 32768 bytes on; storage grows to the next multiple of 256 of capacity plus message while the capacity grows by the message alone, and stays inside it |
| `MessageBatches.MessageBatch.Grow` | server/MessageBatch.hpp:67-73 | If the bytes do not fit, storage of exactly the requested size that holds the separately grown maxLength, otherwise no change; no byte in use is lost |
| `MessageBatches.RoundUp` | server/MessageBatch.hpp:68-68 | The requested size is the next multiple of 256, so it covers what it is asked for |
| `MessageBatches.MessageBatch.CopyFrom` | server/MessageBatch.hpp:81-97 | Takes over the other batch's bytes and type inside the storage |
| `MessageBatches.MessageBatch.Swap` | server/MessageBatch.hpp:47-55 | A move exchanges everything, so the source of a move construction is left without type, bytes, storage and capacity |
| `MessageBatches.MessageBatch.Advance` | server/MessageBatch.hpp:133-136 | Drops exactly the bytes advanced past; since the guard against underflow is on an unsigned value the batch stays well formed exactly if no more is skipped than there is or the position wraps on size_t, when position and length step back together |
| `MessageBatches.MessageBatch.ClearForNextMessage` | server/MessageBatch.hpp:138-147 | Empties the batch and keeps its type, its storage and its capacity |
| `PublisherHandlers.PublisherHandler.ForwardMessage` | server/publisher/TCPPublisherHandler.hpp:114-182 | For every fragment the indexed loop with bulk copies has the effect of the bytes one at a time, and it terminates although its index steps back, and wraps at 0, on empty content |
| `PublisherHandlers.PublisherHandler.ForwardBytes` | server/publisher/TCPPublisherHandler.hpp:115-181 | The loop itself, with a measure of bytes left and parse state that falls on every turn |
| `PublisherHandlers.PublisherHandler.CopyContent` | server/publisher/TCPPublisherHandler.hpp:133-145 | The bulk copy takes min(needed, available) bytes of the fragment and leaves the size_t index one before, modulo 2^64 |
| `PublisherHandlers.PublisherHandler.DoneParsing` | server/publisher/TCPPublisherHandler.hpp:147-179 | A complete frame is batched, the batch is pushed if the frame ends the fragment, and the parser starts over |
| `PublisherHandlers.PublisherHandler.PrepareBatch` | server/publisher/TCPPublisherHandler.hpp:156-162 | The open batch is cut on a change of type or above 32768 bytes |
| `PublisherHandlers.PublisherHandler.PushToQueue` | server/publisher/TCPPublisherHandler.hpp:78-81 | Pushing moves the batch away and leaves an unnamed empty one |
| `PublisherModel.BulkStep` | server/publisher/TCPPublisherHandler.hpp:133-147 | A bulk copy at any index is those bytes one by one, empty content included |
| `PublisherTheorems.FragmentationIndependent` | server/publisher/TCPPublisherHandler.hpp:114-182 | However a stream is cut, the same messages are completed and the same unfinished frame is left |
| `PublisherTheorems.ParseEncoded` | server/publisher/TCPPublisherHandler.hpp:114-182 | Framing any messages, with lengths in any spelling that reads as the length of the content, and reading the frames back gives exactly those messages |
| `PublisherTheorems.ReadExactly` | server/publisher/TCPPublisherHandler.hpp:132-147 | Of frames that arrived in full, cut anyhow, all messages are read if and only if the last has content; otherwise exactly the last is missing |
| `PublisherTheorems.EmptyContentWaits` | server/publisher/TCPPublisherHandler.hpp:133-147 | A concrete frame without content is read only when the next byte arrives |
| `PublisherTheorems.EncodeIsSendable` | server/publisher/TCPPublisherHandler.hpp:123-131 | With its decimal length every content below the size limit, under every type without a bar, makes a frame that can be read |
| `PublisherTheorems.UnreadableLengthHalts` | server/publisher/TCPPublisherHandler.hpp:123-131 | A length that cannot be read ends the reading, however the bytes were cut: all messages before it are read and none after it |
| `PublisherTheorems.BatchesAccounted` | server/publisher/TCPPublisherHandler.hpp:156-169 | Every pushed batch is non-empty, holds whole consecutive messages and was below the limit before its last one; pushed and open batches together are the kept messages in order; an empty open batch has no type |
| `PublisherTheorems.BatchTypedExactly` | server/publisher/TCPPublisherHandler.hpp:156-162 | A pushed batch has one non-empty type, shared by all its messages, exactly if none of them came with an empty type |
| `PublisherTheorems.EmptyTypeMixes` | server/publisher/TCPPublisherHandler.hpp:156-157 | Concrete bytes on which an untyped and a typed message end up in one batch |
| `PublisherConservation.LossExactly` | server/MessageBatch.hpp:63-65 | At every delivery, in the middle of a fragment as well: without untyped messages a completed message is lost if and only if it has the open batch's type and that batch is exactly 32768 bytes; and the open batch is unnamed exactly when empty |
| `PublisherConservation.LogTells` | server/MessageBatch.hpp:153-155 | Message by message over a whole connection: each was kept or dropped as the state of the open batch at its delivery says |
| `PublisherConservation.KeptExactly` | server/publisher/TCPPublisherHandler.hpp:164-164 | A connection loses no message if and only if no delivery finds the open batch in a state that refuses it |
| `PublisherConservation.BytesConserved` | server/publisher/TCPPublisherHandler.hpp:147-179 | Completed messages and the unfinished frame are the input byte for byte, and pushed plus open batches plus the unfinished frame are the whole input if and only if no delivery met that guard |
| `PublisherLossExact.NeverLosesExactly` | server/publisher/TCPPublisherHandler.hpp:156-169 | A condition on the list of typed messages alone, messages of one type that can begin a batch, fill it to exactly 32768 bytes and are followed by one more, decides whether some way of receiving the frames loses a message |
| `PublisherLoss.NeverLost` | server/publisher/TCPPublisherHandler.hpp:114-182 | Without that condition nothing is lost of any part of the frames that has arrived, however it was cut |
| `PublisherLossExact.LostWhenFilled` | server/publisher/TCPPublisherHandler.hpp:164-169 | With it, receives of at most 8192 bytes are constructed that lose a message |
| `PublisherLossExact.SecondIsLost` | server/MessageBatch.hpp:63-65 | Six concrete receives on which the second of two messages is lost in the middle of the last receive |
| `Frames.DecimalRoundTrip` | server/publisher/TCPPublisherHandler.hpp:126-126 | The length parser reads back every decimal length |
| `TextTheorems.StoulReads` | server/publisher/TCPPublisherHandler.hpp:126-126 | std::stoul on every text: white space, sign, digits; refused exactly without digits or from 2^64 on; a minus sign counts down from 2^64 |
| `TextTheorems.EveryTextIsANumeral` | server/publisher/TCPPublisherHandler.hpp:126-126 | Every text has such a reading |
| `TextTheorems.LengthReads` | server/publisher/TCPPublisherHandler.hpp:126-126 | The length a length text announces, for every text |
| `TextTheorems.FirstDigitCounts` | server/publisher/TCPPublisherHandler.hpp:126-126 | Numerals are positional: the first of n + 1 digits counts 10^n |
| `TextTheorems.DecimalOfValue` | server/publisher/TCPPublisherHandler.hpp:126-126 | A numeral without a leading zero is the decimal text of its value |
| `SubscriberHandlers.SubscriberHandler.PushMessageBatch` | server/subscriber/TCPSubscriberHandler.hpp:137-146 | Sends the batch now or keeps a copy behind those waiting; an outstanding send stays the same request on the same buffer with the same bytes |
| `SubscriberHandlers.SubscriberHandler.SendNextPendingMessageBatch` | server/subscriber/TCPSubscriberHandler.hpp:152-160 | The oldest waiting batch becomes the current one and is sent |
| `SubscriberHandlers.SubscriberHandler.SendCurrentMessage` | server/subscriber/TCPSubscriberHandler.hpp:166-173 | Hands exactly the unsent region to the kernel |
| `SubscriberHandlers.SubscriberHandler.OnSendCurrentMessageComplete` | server/subscriber/TCPSubscriberHandler.hpp:181-204 | Every answer, partial, complete, zero or failed, has the effect of the pump's transition; the connection starts to disconnect exactly on a negative one |
| `SubscriberHandlers.SubscriberHandler.OnDisconnected` | server/subscriber/TCPSubscriberHandler.hpp:51-54 | The connection counts as closed, and nothing else about it changes |
| `SubscriberTheorems.PumpConserves` | server/subscriber/TCPSubscriberHandler.hpp:137-205 | Over every run: bytes sent, the rest of the current item and the waiting items are the accepted batches byte for byte in order; ready means all was sent |
| `SubscriberTheorems.PumpShape` | server/subscriber/TCPSubscriberHandler.hpp:137-204 | Over every run an outstanding send covers exactly the unsent rest, and the pump is ready exactly when nothing is current, and then nothing waits |
| `SubscriberTheorems.OneSendAtATime` | server/subscriber/TCPSubscriberHandler.hpp:166-204 | Over every run only its own answer ends an outstanding send, the bytes it covers do not change meanwhile, and a new one starts only when none is outstanding; that the buffer is the same one is in the contract of PushMessageBatch |
| `SubscriberTheorems.StoppedForGood` | server/subscriber/TCPSubscriberHandler.hpp:200-203 | After a failed or empty answer no send is started again in any continuation |
| `SubscriberTheorems.DisconnectsExactly` | server/subscriber/TCPSubscriberHandler.hpp:200-203 | Over every run a connection is disconnecting if and only if a send of it was answered with an error |
| `SubscriberTheorems.FailureCloses` | server/subscriber/TCPSubscriberHandler.hpp:200-203 | An error can answer any outstanding send, after it the socket can be closed, and from then on no offered batch changes the connection |
| `SubscriberTheorems.SubscribedExactly` | server/subscriber/TCPSubscriberHandler.hpp:82-86 | A type is subscribed to exactly if it is the beginning of some subscription |
| `SubscriberTheorems.OfferedExactly` | server/subscriber/TCPSubscriberHandler.hpp:82-86 | In every reachable state: a connected client with such a subscription takes the batch behind its backlog and sends it at once if it was ready; for any other nothing changes |
| `SubscriberTheorems.PositiveAnswers` | server/subscriber/TCPSubscriberHandler.hpp:186-199 | Whatever positive answers the kernel gives, the bytes sent are the backlog up to their sum and the pump is ready exactly when the sum is the backlog |
| `SubscriberTheorems.DrainsByteByByte` | server/subscriber/TCPSubscriberHandler.hpp:186-199 | One-byte answers, as many as there are bytes to send, deliver the whole backlog and make the pump ready |
| `SubscriberServers.SubscriberServer.Broadcast` | server/subscriber/SubscriberServer.hpp:40-47 | Every client takes the batch exactly as if it were alone, though all are updated in place in one loop, and every outstanding send stands; the bytes are accepted by exactly the connected clients with a subscription that begins with the type |
| `SubscriberServers.SubscriberServer.DrainOne` | server/subscriber/SubscriberServer.hpp:39-48 | One round of the drain loop: the oldest batch leaves the queue and is offered to every client, or the queue was empty and nothing happens |
| `MessageQueues.MessageQueue.PushBack` | server/MessageQueue.hpp:24-36 | While the queue has room the batch goes to its end, the caller keeps an empty one without storage, and both flags are up; on a full queue the call waits and has moved nothing |
| `MessageQueues.MessageQueue.TryPop` | server/MessageQueue.hpp:38-40 | Moves the oldest batch out, or reports that there is none and changes nothing |
| `BrokerTheorems.RunKeeps` | server/subscriber/SubscriberServer.hpp:36-57 | The invariant of the whole pipeline, any number of publisher threads, the queue, the draining thread and the subscribers, over every interleaving |
| `BrokerTheorems.SentMatchesDelivered` | server/subscriber/TCPSubscriberHandler.hpp:82-86 | With any number of publishers and subscribers, what a subscriber was sent is always a prefix of the delivered batches its subscriptions match |
| `BrokerTheorems.MatchesExactly` | server/subscriber/TCPSubscriberHandler.hpp:82-86 | The share of a subscriber: batch by batch, and message by message, those whose type is the beginning of one of its subscriptions |
| `BrokerTheorems.DeliveredKeepsPublicationOrder` | server/MessageQueue.hpp:24-41 | The delivered batches of each publisher are a prefix of those it cut, none lost, doubled or overtaken |
| `BrokerTheorems.FailureCutsOff` | server/subscriber/TCPSubscriberHandler.hpp:200-203 | An error answers any outstanding send, the socket then closes, and queue, deliveries and all other subscribers stay as they are |
| `BrokerTheorems.ClosedForGood` | server/subscriber/SubscriberServer.hpp:43-43 | No run changes a subscriber whose connection is closed |
| `BrokerTheorems.FilterByBatchIsByMessage` | server/subscriber/TCPSubscriberHandler.hpp:82-86 | Filtering by the type of the batch gives the bytes of filtering message by message |
| `BrokerTheorems.ShareIsMatchingMessages` | server/subscriber/SubscriberServer.hpp:36-48 | Any number of publishers: of each with typed messages, the part of the delivered batches that a subscriber matches is a prefix of the framed matching messages in publication order |
| `BrokerTheorems.SentIsMatchingMessages` | server/subscriber/SubscriberServer.hpp:36-48 | With one publisher that is what the subscriber was sent |
| `PublisherTheorems.ReadIsPrefixOfSent` | server/publisher/TCPPublisherHandler.hpp:114-182 | Of a stream of frames that has partly arrived, cut anyhow, the messages read are the first of those framed |
| `BrokerTheorems.ClientToBroadcast` | server/subscriber/SubscriberServer.hpp:36-48 | From each of any number of publishing clients to a subscriber, for every interleaving and fragmentation, given only that the client's messages are typed and do not fill a batch exactly |
| `BrokerTheorems.ClientToClient` | server/subscriber/SubscriberServer.hpp:36-48 | With one publisher: from the client's list of messages to the bytes the subscriber was sent |
| `BrokerTheorems.AtRestNothingIsMissing` | server/subscriber/SubscriberServer.hpp:36-57 | When all threads are outside an empty queue, everything cut was delivered in order and a ready subscriber has been sent all of its share |
| `PublisherConservation.OpenEmptyExactly` | server/publisher/TCPPublisherHandler.hpp:167-169 | A connection leaves nothing in its open batch exactly if it has completed no message or the last one it completed ended its fragment |
| `BrokerTheorems.OpenIsMissing` | server/publisher/TCPPublisherHandler.hpp:156-169 | The matching part of what was cut and of what is in the open batch are together the matching kept messages, so the open batch is all that can be missing |
| `BrokerTheorems.AllBroadcastAtRest` | server/subscriber/SubscriberServer.hpp:36-57 | At rest, of each of any number of clients whose frames have arrived in full, cut anyhow, the last with content, exactly the messages subscribed to were broadcast |
| `BrokerTheorems.AllSentAtRest` | server/subscriber/SubscriberServer.hpp:36-57 | With one publisher a ready subscriber was then sent exactly the messages it subscribed to |
| `BrokerProgress.SomeoneMoves` | server/subscriber/SubscriberServer.hpp:36-57 | No deadlock of the pipeline: while it is not at rest, some publisher or the draining thread has a move that leaves strictly less to do |
| `BrokerProgress.EverythingCanArrive` | server/subscriber/SubscriberServer.hpp:36-57 | From every reachable state some continuation, in which threads only step and the kernel only takes bytes, delivers everything that was cut and sends every live subscriber all of its share |
| `BrokerProgress.ClientCanReachClient` | server/subscriber/SubscriberServer.hpp:36-57 | Wherever the broker stands, once one client's frames have arrived in full such a continuation sends a live subscriber exactly the messages it subscribed to |
| `BrokerProgress.EveryStreamCanArrive` | server/subscriber/SubscriberServer.hpp:36-57 | For all such messages and every way to cut their frames some run of the broker receives exactly these fragments and sends every subscriber exactly the messages it subscribed to |
| `HttpParser.WebResponseParser.Parse` | server/http/WebResponseParser.hpp:517-553 | The loop over a fragment with bulk line copies leaves the parser where its bytes one by one would, and the answer is failed exactly on malformed input, succeeded exactly when the parser is done, and retry otherwise |
| `HttpParser.WebResponseParser.ParseAll` | server/subscriber/WSSubscriberHandler.hpp:58-78 | Calling parse for each receive until it no longer asks for more leaves parser and last answer as the whole stream does, however it was cut |
| `HttpParser.FitsHoweverCut` | server/http/WebResponseParser.hpp:517-553 | What is asked of the receives depends on the stream and not on the cuts |
| `HttpParser.WebResponseParser.GotoSlashR` | server/http/WebResponseParser.hpp:355-370 | Everything up to the next CR is taken in bulk, across fragment ends |
| `HttpParser.WebResponseParser.GotoSlashN` | server/http/WebResponseParser.hpp:376-398 | LF ends the line and the empty line ends the headers; any other byte is malformed |
| `HttpParser.WebResponseParser.ProcessLine` | server/http/WebResponseParser.hpp:314-335 | The line is interpreted and the buffer is zeroed again |
| `HttpParser.WebResponseParser.ParseHeader` | server/http/WebResponseParser.hpp:173-187 | Found exactly for the first line that begins with the field name, each letter small or capital; its left-trimmed value is recorded |
| `HttpParser.WebResponseParser.ParseContentLengthHeader` | server/http/WebResponseParser.hpp:193-208 | Found exactly for the first content-length line whose length can be read; zero or unreadable means no body |
| `HttpParser.WebResponseParser.ParseFirstLine` | server/http/WebResponseParser.hpp:286-309 | The number at column 9 of the zero-filled buffer is the status of the line alone |
| `HttpTheorems.EveryStreamHasAShape` | server/http/WebResponseParser.hpp:314-398 | Every byte stream fits one of five shapes, and the parser's whole state is the one computed for that shape by an independent reading of its lines |
| `HttpTheorems.ShapeParses` | server/http/WebResponseParser.hpp:314-398 | Conversely every stream of each shape leads to that state: first case-insensitive match per field name, left-trimmed, length, expectation of a body, completion |
| `HttpTheorems.Unambiguous` | server/http/WebResponseParser.hpp:355-398 | No stream has two shapes |
| `HttpTheorems.MalformedExactly` | server/http/WebResponseParser.hpp:393-397 | The parser fails exactly on a CR in the first line or the header lines that no LF follows |
| `HttpTheorems.OutcomeExactly` | server/http/WebResponseParser.hpp:544-552 | After every stream the answer is failed exactly for the malformed shape and succeeded exactly for the complete ones |
| `HttpTheorems.UpgradeRequest` | server/http/WebResponseParser.hpp:376-391 | A browser's upgrade request with any key, capitals in its field names, is complete at once with both values known |
| `HttpTheorems.ResponseLength` | server/http/WebResponseParser.hpp:193-208 | Of a response with any status and any length both numbers are read, a body is expected exactly after 2xx and a length above zero, and a length of zero completes it |
| `TextTheorems.NamesField` | server/StringUtils.hpp:9-34 | Which lines name a field: letter by letter, small or capital |
| `TextTheorems.PrefixIgnoresCase` | server/StringUtils.hpp:9-34 | Prefixes are compared letter by letter, the two cases of a letter of the alphabet being the same |
| `TextTheorems.LeftTrimmed` | server/http/WebResponseParser.hpp:178-181 | Exactly the leading space, tab, line feed, vertical tab, form feed and carriage return are dropped |
| `TextTheorems.StrtolReads` | server/http/WebResponseParser.hpp:290-290 | strtol on every text: the signed value clamped to 64 bits and cut to the 32 bits of an int |
| `TextTheorems.StatusReads` | server/http/WebResponseParser.hpp:290-290 | The status is the number that begins at column 9, whatever stands before and behind it |
| `TextTheorems.CStringEnds` | server/http/WebResponseParser.hpp:196-196 | A value is read up to its first zero byte |
| `HttpTheorems.LineEnds` | server/http/WebResponseParser.hpp:314-335 | One more line, status or field, is taken in as the reference reading says |
| `HttpTheorems.OneField` | server/StringUtils.hpp:19-34 | A line names at most one of the fields looked for |
| `CommandHandlers.SplitInto` | server/StringUtils.hpp:43-59 | The splitting loop appends the fields of the input, without an empty last one |
| `CommandTheorems.CutIsExact` | server/StringUtils.hpp:43-59 | Joining the fields and what follows the last delimiter gives back the text |
| `CommandTheorems.CutIsComplete` | server/StringUtils.hpp:47-54 | No field contains the delimiter |
| `CommandTheorems.CutOfJoined` | server/StringUtils.hpp:43-59 | Splitting undoes joining for all fields without the delimiter |
| `CommandTheorems.SplitOfJoined` | server/StringUtils.hpp:43-59 | What splitting gives for any fields: all of them, without an empty last one |
| `CommandTheorems.ParseExactly` | server/command/CommandHandler.hpp:83-107 | Which texts are commands with an effect, and which effect: exactly name, subscribe, values and timeout between bars, with or without a bar behind them |
| `CommandTheorems.CommandMeans` | server/command/CommandHandler.hpp:87-105 | For all fields and every timeout: the subscribe command asks for these values for this name with this timeout, and no other verb has an effect |
| `CommandTheorems.TimeoutReads` | server/command/CommandHandler.hpp:91-101 | The timeout for every text: the number std::stoull reads, 0 if it refuses |
| `CommandTheorems.CutConcat` | server/StringUtils.hpp:47-54 | Splitting is a homomorphism at a delimiter |
| `CommandTheorems.StreamOfCommands` | server/command/CommandHandler.hpp:59-77 | For every stream that ends with CR and every way to cut it, the calls made are those of its commands and nothing is held back |
| `CommandTheorems.CallsIndependentExactly` | server/command/CommandHandler.hpp:66-76 | The calls made do not depend on how a stream was cut if and only if it ends with CR or completes no command that has an effect |
| `CommandTheorems.CutMatters` | server/command/CommandHandler.hpp:66-76 | A concrete stream on which two cuts make different calls |
| `CommandTheorems.CallsAreOnTheWay` | server/command/CommandHandler.hpp:59-112 | For any stream and cut, the calls made and those in the bytes held back are the calls of the stream |
| `CommandHandlers.CommandHandler.OnReceiveDataComplete` | server/command/CommandHandler.hpp:59-77 | One receive: buffer, calls made and their effect on clients and waiting list; acknowledged exactly when the bytes end a command |
| `CommandHandlers.CommandHandler.ProcessCommand` | server/command/CommandHandler.hpp:79-112 | The loop over commands makes exactly the calls of the well-formed subscribe commands, in order |
| `CommandHandlers.CommandHandler.AddSubscription` | server/command/CommandHandler.hpp:114-128 | Every connected client of that name takes the command, or it waits |
| `CommandHandlers.SubscriberClient.AddSubscriptions` | server/subscriber/TCPSubscriberHandler.hpp:117-130 | The table then has its old values and all of the list; old ones keep their timeout, new ones have this one |
| `SubscriptionTheorems.AddValuesExactly` | server/subscriber/TCPSubscriberHandler.hpp:121-129 | The same for the table as a value, for all tables, timeouts and lists |
| `SubscriptionTheorems.TableExactly` | server/subscriber/TCPSubscriberHandler.hpp:117-130 | The table of a list of commands has exactly the values some command names, each with the timeout of the first that does |
| `SubscriptionTheorems.CommandReaches` | server/command/CommandHandler.hpp:114-128 | A command changes the tables of exactly the connected subscribers of its name, and waits exactly if there is none |
| `SubscriptionTheorems.GoneForGood` | server/command/CommandHandler.hpp:118-118 | No run changes a subscriber that has disconnected |
| `SubscriptionTheorems.LateCommandsWait` | server/command/CommandHandler.hpp:114-128 | After a subscriber disconnects, commands for its name wait, and a subscriber of that name can connect again |
| `CommandHandlers.SubscriberClient.AfterSendAckComplete` | server/subscriber/TCPSubscriberHandler.hpp:88-98 | The client takes what waits for its name, in order |
| `CommandHandlers.ServerContext.TakePendingSubscriptions` | server/ServerContext.hpp:42-54 | Returns the entries of one name in order; what it leaves has shells in their places unless the name is empty |
| `SubscriptionTheorems.TakenOnce` | server/ServerContext.hpp:42-54 | What was taken is not there a second time, and no other name's entries change |
| `SubscriptionTheorems.LeavesShells` | server/ServerContext.hpp:42-54 | After a taking every entry of that name is still in its place without its strings, and the others are as they were |
| `SubscriptionTheorems.ShellsAreInert` | server/ServerContext.hpp:50-54 | The shells left behind add nothing to any table |
| `SubscriptionTheorems.RunKeeps` | server/command/CommandHandler.hpp:114-128 | Over every run of commands, connections, acknowledgements and disconnections each client's table is that of the commands it was given |
| `SubscriptionTheorems.AppliedOnce` | server/ServerContext.hpp:38-54 | Over every run each command is waiting or was applied to one client of its name, as often as it was received: none is lost or applied twice |
| `SubscriptionTheorems.SubscribedAsSeen` | server/subscriber/TCPSubscriberHandler.hpp:88-98 | Wherever the connection falls among the commands the final values are the same; the timeouts are those of the command order if and only if commands before and during the handshake agree on common values |
| `SubscriptionTheorems.Confluent` | server/command/CommandHandler.hpp:114-128 | Two runs with the same commands give the same values, and the same timeouts if in both the commands before and during the handshake agree, as when none fell into it |
| `SubscriptionTheorems.HandshakeReorders` | server/subscriber/TCPSubscriberHandler.hpp:88-98 | A concrete run in which a command during the handshake overtakes an earlier one |
| `SubscriptionTheorems.SwapExactly` | server/subscriber/TCPSubscriberHandler.hpp:121-129 | Two groups of subscriptions can change places exactly if they agree on the timeouts of common values |

## Left out

- Weak memory orders and cache-line alignment: the queue's atomics are sequentially consistent and its
  counters unbounded, so their wrap-around after 2^64 tickets is not modelled. `size()` and `empty()` are
  best-effort guesses without a guarantee to state.
- Sockets, io_uring, epoll, signals, logging and the event loops: a completion is a value the kernel
  chooses, a receive is a fragment.
- Data races on `clients`, `subscriptions` and `pendingSubscriptions`, which the code does not synchronise:
  each handler call is one step.
- Prompt wake-up of the draining thread: a publisher can push between the last failed `try_pop` and the
  clearing of the flags, so `hasPendingData` being clear does not mean that the queue is empty. Nothing is
  lost by that, and nothing is claimed about when it is delivered.
- Handshake: intent and name exchange. Subscribers of the pipeline have finished theirs; the code would let
  a batch overwrite the event of one that has not.
- Liveness of the pump after an answer of 0: the code stalls then, and `StoppedForGood` says so.
- SubscriberServers.SubscriberServer.DrainOne: is one round of the drain loop; any number of rounds,
  interleaved with everything else, is in `BrokerModel`.
- SubscriberServers.SubscriberServer.Broadcast: the batch is not empty and is read from its start, which
  is what publishers push (`BatchesAccounted`).
- SubscriberHandlers.SubscriberHandler.SendNextPendingMessageBatch: the waiting batches are a list of
  values and not of buffers, so which storage a waiting batch occupies is not captured; the busy flag and
  the time of the last action are not kept.
- MessageQueues.MessageQueue.PushBack: on a full queue answers that the call is not done; the ticket that it
  holds while it waits is in `MpmcCalls.Emplace`.
- BrokerModel: the draining thread's return from `try_pop` and its broadcast are one step, and it calls
  `try_pop` over and over, whatever the flags say. A publisher's batches are handed to the queue after the
  fragment has been parsed, not in between. Subscriptions do not change during a run.
- MpmcCalls.Emplace: like `Pop`, `TryEmplace` and `TryPop`, is given the actions of the other threads as a
  list; when the list ends while the call would still loop, it stops there and says so.
- PublisherLossExact.NeverLosesExactly: speaks of messages with a type. Which state of the open batch refuses
  an untyped one is in `LogTells` and `KeptExactly`, which hold for all messages.
- PublisherHandlers.PublisherHandler.ForwardMessage: a length that `std::stoul` refuses, or that is within
  8192 of 2^64, where the index arithmetic would wrap, halts the parser; the code throws, or reads outside
  the fragment. Fragments are at most 8192 bytes, as the receives are.
- MessageBatches.MessageBatch.Advance: says when the batch is well formed for capacities below 2^64, which a
  size_t is; `SubscriberHandlers.SubscriberHandler.OnSendCurrentMessageComplete` asks for that, and for an answer
  of no more than was to be sent.
- MessageBatches.MessageBatch.Grow: `ceil` on `double` is exact rounding up; capacities are unbounded and
  allocation succeeds.
- HttpParser.WebResponseParser.Parse: like `ParseAll`, asks that lines fit the 8192-byte buffer and that no byte of a
  response body follows in the fragment, and is not called again after a failure, as its caller does not.
  Header values fit their fixed buffers. The body reader (`gotoEndOfResponse` with a body expected,
  `writeToOutBuffer`), which looks behind its fragment, and the unfinished WebSocket handler are left out.
- HttpTheorems.EveryStreamHasAShape: where a response body is expected the state is the one at the end of the
  headers; what the body reader makes of the bytes after it is left out. The same holds for
  `HttpTheorems.ShapeParses` and `HttpParser.WebResponseParser.ParseAll`.
- SubscriptionTheorems.RunKeeps: names are not empty and connected subscribers have different names; two
  subscribers of one name would both be given a command, and an empty name would match every connection
  still in its handshake.
- CommandHandlers.ServerContext.TakePendingSubscriptions: a string that was moved from is empty, as in the
  common standard libraries.
- Expiry of subscriptions and the clock: timeouts are stored and never run out, which leaves only filtering.
- Characters are unbounded code points; `isspace` and `tolower` are those of the "C" locale.
