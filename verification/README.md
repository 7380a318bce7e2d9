# Verified model of the Ignite client's queue, messages, events and CPU sampler

Five parts of the client library, in Dafny, with what they promise proved for every input, run or reachable state.

**The concurrent queue** (`PackedWords`, `QueueSpec`, `LockFreeMachine`, `LockFreeProof`, `LockFreedom`,
`SequentialQueues`).
`LockFreeMachine` is the lock-free build as a transition system: a shared heap of nodes, head and tail words with a
size counter packed under the pointer, a program counter and locals for each thread, one step per atomic load or
compare-and-swap. `QueueSpec` is a FIFO sequence on which each operation takes effect in one step between its call and
its return; it knows nothing of nodes. `LockFreeProof` shows that every run of the first is a run of the second,
and `LockFreedom` that a run is no longer than the calls made in it pay for.
`SequentialQueues` holds both builds as classes called by one thread: there the lock-free build frees nodes and reuses
their addresses, and it answers exactly as the mutex build does.

**Messages** (`Frames`, `Messages`, `RequestReply`). The byte frame, whose payload starts inside the declared header;
the loop that moves bytes over a socket in pieces of any size; the message object; and a client and a server whose late
replies stay in the stream.

**The event sender** (`EventSender`). Connection id, one-way may-queue flag and bounded startup queue, over whole runs.

**Attachments and the JSON form of an event** (`AttachmentNames`, `AttachmentStore`, `EventJson`). The two modules
`AttachmentStore` and `EventJson` each hold the half of `CIgniteEvent` they are about.

**The CPU sampler** (`CpuSampler`), the Linux form.

Where a promise fails, the code is kept as it is and the exact condition is proved:

- A reply is only sure to belong to its request while the client process has constructed at most 2^32 messages
  (`RequestReply.AcceptedRepliesMatch`); one more is enough to mix replies (`RequestReply.CounterWrapMixesReplies`).
- Printing, parsing and printing an event again gives the same text if and only if, in that text, event id and version
  are strings, the timestamp is an integer in the unsigned 64-bit range, the time zone an integer in the int range, and
  the optional ids strings (`EventJson.PrintParsePrint`). A `double` timestamp is written without a decimal point when it
  is whole, so it survives exactly when it is whole, not negative and below 10^17 (`EventJson.DoubleTimestamps`).
- The branch for a percentage over 100 is taken if and only if the 64-bit total of the deltas wraps
  (`CpuSampler.OverHundredIffWraps`), and every tick is accounted for if and only if no reading is 2^64 ticks past its
  baseline (`CpuSampler.RunAccountsForEveryTick`).
- The attachment directory stays within the larger of its starting total and the configured total, after every request
  of a list, if and only if each request in its turn fits: it is refused before compressing, or its compressed copy, if
  that lies in the directory itself and cannot be removed, fits beside the files there
  (`AttachmentStore.CIgniteEvent.ProcessAttachment`; for one request `AcceptAttach`).
  `AttachmentStore.RefusedCopyStays` is a request that breaks the bound.
- A stored name holds the device id in place of the event id if and only if the third cut is reached and makes it fit
  (`AttachmentNames.EventOfFinal`, `EventFieldOfStored`): that stage writes the device id into the event's place
  (client/libEvent/src/CIgniteEvent.cpp:505). For the same reason the last stage can give up on a name that could still
  be cut to fit, which the log message at lines 590-591 calls impossible; `AttachmentNames.AcceptedExactlyWhen` says
  for which names it does, and `AttachmentNames.GivesUpTooEarly` shows some.
- `Size()` loads its two counters one after the other. It answers the queued total, modulo 2^32, at its second load if
  nothing is enqueued (tail loaded first) or taken (head loaded first) in between and no `Put` is between its link and
  its swing; what it answers otherwise is `LockFreeProof.SizeAtHeadLoad` and `SizeAtTailLoad`.
- `Put` inserts its item whatever it returns. It answers `false` exactly when another thread has moved the tail to its
  node or past it before its own last step (`LockFreeProof.PutAnswers`).

Where code and comments disagree, the model follows the code. The comment at
client/libEvent/src/CIgniteEventSender.cpp:86-88 says that queueing ends once startup events have been cleared; the flag
goes off only when a connection finds something queued (`EventSender.QueueingEndsWhenDrained`). The call at
client/libEvent/src/CIgniteEvent.cpp:714-723 passes the compressed path and the delete setting in each other's place;
`FinalizeOutFileName` is modelled by its own signature. The node field is declared `atomicNext` and used as `ullnNext`
(client/libUtils/include/CConcurrentQueue.h:124, 286); they are one field here. Descriptor 0 passes the connection test
of a message but is refused by the socket loop (client/libEvent/src/CIgniteMessage.cpp:117, 353).

## Model

| member | source | states |
|---|---|---|
| PackedWords.Unpack | client/libUtils/include/CConcurrentQueue.h:212-237 | pointer and counter come back out of a packed word, and a real node's word is never the null link |
| PackedWords.PackInjective | client/libUtils/include/CConcurrentQueue.h:212-237 | equal words name the same node with the same counter |
| PackedWords.SwapAdds | client/libUtils/include/CConcurrentQueue.h:249-257 | a successful swap stores the desired node with the sum of both counters modulo 2^32 |
| PackedWords.ModDiff | client/libUtils/include/CConcurrentQueue.h:477 | taking a size out of a 32-bit total recovers the rest modulo 2^32 however often it wrapped |
| PackedWords.ModSpan | client/libUtils/include/CConcurrentQueue.h:351 | the difference of two 32-bit prefix sums of one total, wrapped or not, is the span between them |
| QueueSpec.FirstInFirstOut | client/libUtils/include/CConcurrentQueue.h:185-202 | in any accepted history, what was dequeued followed by what is queued is the initial queue followed by what was enqueued |
| QueueSpec.EachPutEnqueuesOnce | client/libUtils/include/CConcurrentQueue.h:276-305 | each thread's calls of Put, enqueues and returns from Put alternate: exactly one enqueue per call |
| QueueSpec.AcceptMoves | client/libUtils/include/CConcurrentQueue.h:185-202 | an enqueue adds at the back, a dequeue takes the front value, nothing else moves a value |
| LockFreeProof.WordsName | client/libUtils/include/CConcurrentQueue.h:212-237 | head and tail words with prefix-sum counters are equal exactly when they name the same node of the chain |
| LockFreeProof.SwapAdvances | client/libUtils/include/CConcurrentQueue.h:249-257 | swinging head or tail over one link keeps its counter the sum of all sizes up to its node |
| LockFreeProof.LocalStays | client/libUtils/include/CConcurrentQueue.h:276-340 | what a thread has read stays usable through any step of another thread |
| LockFreeProof.TailMoves | client/libUtils/include/CConcurrentQueue.h:298-304 | won or lost, a swing leaves the tail past the node it started from and the queue unchanged |
| LockFreeProof.LinkStep | client/libUtils/include/CConcurrentQueue.h:290-297 | the swap on a null next is an enqueue at the back; a failed one changes nothing |
| LockFreeProof.PutStepIsGood | client/libUtils/include/CConcurrentQueue.h:276-305 | every step of Put keeps the chain, respects the other threads and is the step of the atomic queue it claims |
| LockFreeProof.SwingStep | client/libUtils/include/CConcurrentQueue.h:329-340 | the swap on head dequeues the front item, and the value read before it is that item's |
| LockFreeProof.ReadNextStep | client/libUtils/include/CConcurrentQueue.h:315 | when Take reads a null next the queue is empty at that moment |
| LockFreeProof.RecheckStep | client/libUtils/include/CConcurrentQueue.h:317-326 | Take reports an empty queue exactly when next was null and head, re-read, is unchanged; head then equals tail |
| LockFreeProof.TakeStepIsGood | client/libUtils/include/CConcurrentQueue.h:307-340 | every step of Take keeps the chain, respects the other threads and is the step of the atomic queue it claims |
| LockFreeProof.SizeStepIsGood | client/libUtils/include/CConcurrentQueue.h:342-352 | the loads of Size change nothing |
| LockFreeProof.BoundaryStepIsGood | client/libUtils/include/CConcurrentQueue.h:276-340 | so are the allocation at the start of Put and the returns |
| LockFreeProof.OthersStay | client/libUtils/include/CConcurrentQueue.h:276-340 | after a step every thread's locals still fit, and no two threads own the same unlinked node |
| LockFreeProof.StepRefines | client/libUtils/include/CConcurrentQueue.h:276-340 | each step of the whole system keeps the invariant and is accepted by the atomic queue |
| LockFreeProof.StartIsGood | client/libUtils/include/CConcurrentQueue.h:259-265 | the constructor gives one dummy node, an empty queue and the invariant |
| LockFreeProof.Linearizable | client/libUtils/include/CConcurrentQueue.h:276-340 | every prefix of every run of any threads under any interleaving is a history of the atomic FIFO queue, and reaches the state it reaches |
| LockFreeProof.TakesFollowPuts | client/libUtils/include/CConcurrentQueue.h:185-202 | in every run the values taken are a prefix of the values put, in order, and Put counts never run ahead or behind by more than the call in progress |
| LockFreeProof.EveryThreadCanStep | client/libUtils/include/CConcurrentQueue.h:276-340 | in every reachable state no thread follows a dangling pointer or is stuck |
| LockFreeProof.TailReachesReturnedNode | client/libUtils/include/CConcurrentQueue.h:304 | when Put returns, whatever it returns, tail is at or past its node |
| LockFreeProof.PutAnswers | client/libUtils/include/CConcurrentQueue.h:304 | at its last step Put answers true exactly when the tail stands right before its node, so that its own swing moves it there; false when the tail is there or further already, and then nothing moves |
| LockFreeProof.HeadEqualsTailIsSameNode | client/libUtils/include/CConcurrentQueue.h:319 | the packed test of head against tail holds exactly when both name the same node |
| LockFreeProof.SizeAtHeadLoad | client/libUtils/include/CConcurrentQueue.h:351 | under any interleaving, with the tail loaded first: the queued total when head is loaded, less the items linked behind the loaded tail, modulo 2^32 |
| LockFreeProof.SizeAtTailLoad | client/libUtils/include/CConcurrentQueue.h:351 | with head loaded first: the queued total when the tail is loaded, with what was taken since and less an item linked but not behind the tail, modulo 2^32 |
| LockFreeProof.SizeIsQueuedTotal | client/libUtils/include/CConcurrentQueue.h:342-352 | in every run, with no Put between link and swing at the first load and no enqueue before the second, Size answers the queued total modulo 2^32 at the moment it loads head |
| LockFreeProof.SizeIsQueuedTotalHeadFirst | client/libUtils/include/CConcurrentQueue.h:342-352 | the same for the other order of evaluation, with nothing taken between the loads |
| LockFreeProof.SizeInOneState | client/libUtils/include/CConcurrentQueue.h:342-352 | with the tail on the last node the counter difference is the sum of the queued sizes modulo 2^32 |
| LockFreedom.PutRound | client/libUtils/include/CConcurrentQueue.h:283-303 | Put starts its loop over only after a link or a swing has succeeded since the round began |
| LockFreedom.TakeRound | client/libUtils/include/CConcurrentQueue.h:311-336 | Take starts its loop over only after a head or tail swing has succeeded since the round began |
| LockFreedom.RestartsNeedSwaps | client/libUtils/include/CConcurrentQueue.h:283-336 | in every run a thread starts over no more often than swaps have succeeded, links and swings of all threads counted |
| LockFreedom.RestartsBounded | client/libUtils/include/CConcurrentQueue.h:283-336 | a thread starts over at most three times for each node anyone links |
| LockFreedom.StepsOfOne | client/libUtils/include/CConcurrentQueue.h:276-352 | however it is scheduled, a thread takes at most 8 steps for each of its calls and 21 for each Put anyone calls |
| LockFreedom.LockFree | client/libUtils/include/CConcurrentQueue.h:276-352 | every run of any threads is no longer than a fixed multiple of its calls and Puts: the threads cannot spin together without finishing |
| SequentialQueues.FreeAddress | client/libUtils/include/CConcurrentQueue.h:216 | fewer nodes than addresses leave an address for a new node |
| SequentialQueues.FreeKeepsShape | client/libUtils/include/CConcurrentQueue.h:338 | deleting the node head has left gives a well-formed queue of the same items |
| SequentialQueues.LockFreeQueue.constructor | client/libUtils/include/CConcurrentQueue.h:259-265 | an empty queue with tail on the last node |
| SequentialQueues.LockFreeQueue.Put | client/libUtils/include/CConcurrentQueue.h:276-305 | without other threads the item is added at the back, even from a lagging tail, and the result is true |
| SequentialQueues.LockFreeQueue.Take | client/libUtils/include/CConcurrentQueue.h:307-340 | takes out the first item and frees the node passed; false exactly on the empty queue |
| SequentialQueues.LockFreeQueue.Size | client/libUtils/include/CConcurrentQueue.h:342-352 | the total size modulo 2^32; process exit exactly when sizes are not tracked |
| SequentialQueues.HelpTail | client/libUtils/include/CConcurrentQueue.h:300 | swinging a lagging tail changes nothing but its place |
| SequentialQueues.TakeRead | client/libUtils/include/CConcurrentQueue.h:313-329 | what Take reads at head: null next means empty, otherwise next names the first item's node |
| SequentialQueues.TakeFrees | client/libUtils/include/CConcurrentQueue.h:330-338 | moving head and deleting the old node takes the first item out and nothing else |
| SequentialQueues.MutexQueue.Put | client/libUtils/include/CConcurrentQueue.h:440-464 | succeeds exactly when one of ten lock attempts does, after the first that does; otherwise the queue is unchanged |
| SequentialQueues.MutexQueue.Take | client/libUtils/include/CConcurrentQueue.h:466-483 | takes out the first item and keeps the size field the total modulo 2^32 |
| SequentialQueues.MutexQueue.Size | client/libUtils/include/CConcurrentQueue.h:485-489 | the total size modulo 2^32 |
| SequentialQueues.CallBoth | client/libUtils/include/CConcurrentQueue.h:276-489 | one call on both builds gives the same answer and leaves the same queue |
| SequentialQueues.BothBuildsAgree | client/libUtils/include/CConcurrentQueue.h:276-489 | every single-threaded sequence of calls gets the same answers from both builds, those of one FIFO sequence |
| Frames.NumberOfDigits | client/libEvent/src/CIgniteMessage.cpp:85-88 | the low k bytes of a number below 256^k are that number's bytes, for every k |
| Frames.Int32RoundTrip | client/libEvent/src/CIgniteMessage.cpp:82-90 | a 32-bit field is read back in either byte order |
| Frames.Int32Places | client/libEvent/src/CIgniteMessage.cpp:82-90 | which byte of a 32-bit field counts for how much, in either byte order |
| Frames.FrameFields | client/libEvent/src/CIgniteMessage.cpp:602-626 | where each field and the payload lie in a frame, whatever follows it |
| Frames.ReadFrameMeans | client/libEvent/src/CIgniteMessage.cpp:307-429 | for every byte stream, valid frame or not: what the reader gives and takes, by the bytes at each place; a header without the eight sync bytes or with too long a body is refused, type 0 raises before either is looked at |
| Frames.FrameRoundTrip | client/libEvent/src/CIgniteMessage.cpp:307-338 | header-then-body reading gives back type, reply flag, number and payload and consumes exactly the frame |
| Frames.StreamRoundTrip | client/libEvent/src/CIgniteMessage.cpp:393-429 | a concatenation of frames is read back as exactly the list of messages, to the last byte |
| Messages.OperateOnSocket | client/libEvent/src/CIgniteMessage.cpp:110-195 | terminates; success means exactly the requested bytes moved in order, failure that a shorter prefix did; never fails on a socket that keeps moving bytes |
| Messages.ProgressInPieces | client/libEvent/src/CIgniteMessage.cpp:155-186 | moving k bytes and then j more is moving k + j |
| Messages.ReadMessage | client/libEvent/src/CIgniteMessage.cpp:393-429 | however the socket cuts the stream, the outcome and the bytes consumed are those of the whole-stream reader, or the stream failed; it stays inside a buffer of the maximum size |
| Messages.VisibleIsWhole | client/libEvent/src/CIgniteMessage.cpp:584-594 | the visible text is a NUL-free prefix that stops only at a NUL, and is the whole text exactly when it has none |
| Messages.TextOfMeans | client/libEvent/src/CIgniteMessage.cpp:584-594 | a payload reads as what stands before its first NUL, and has no text exactly when it has bytes but no NUL |
| Messages.TerminatedText | client/libEvent/src/CIgniteMessage.cpp:504-536 | a stored text with its terminator reads back as its visible part |
| Messages.TextRoundTrip | client/libEvent/src/CIgniteMessage.cpp:504-626 | text set, serialized, read and asked for again is its prefix before the first NUL, for every text within the limit |
| Messages.CIgniteMessage.Create | client/libEvent/src/CIgniteMessage.cpp:285-305 | type 0 is refused without using a number; otherwise the counter moves on by one modulo 2^32 |
| Messages.CIgniteMessage.SetMessage | client/libEvent/src/CIgniteMessage.cpp:504-536 | a text below the limit becomes the payload with a NUL behind it, an over-long one leaves the previous message in place; the result says which |
| Messages.CIgniteMessage.SetRawMessage | client/libEvent/src/CIgniteMessage.cpp:538-566 | the same for raw bytes, whose limit is one larger |
| Messages.PastedFrame | client/libEvent/src/CIgniteMessage.cpp:608-621 | the fields written into the zeroed buffer in the code's order make the frame |
| Messages.CIgniteMessage.Serialize | client/libEvent/src/CIgniteMessage.cpp:602-626 | the buffer filled in place is the frame of the message |
| Messages.CIgniteMessage.Send | client/libEvent/src/CIgniteMessage.cpp:370-463 | what reaches the stream is a prefix of one frame, the whole frame exactly on success; a reply is accepted only from the first frame read and only with the same number, and an exception only comes out of a reply of type 0 |
| Messages.ReplyIsRead | client/libEvent/src/CIgniteMessage.cpp:465-483 | the frame of a reply is read as one message of the request's type and number that wants no reply, with the text up to its first NUL, or without payload when the text is too long |
| Messages.CIgniteMessage.Reply | client/libEvent/src/CIgniteMessage.cpp:465-483 | on success the bytes added to the stream are read as one message of the request's type and number that wants no reply and has the given text, or no payload when it is too long; a message that wants no reply sends nothing |
| Messages.ReplyReachesRequest | client/libEvent/src/CIgniteMessage.cpp:370-483 | on whole frames: a request frame reads back as the request, and the server's reply frame as its text |
| Messages.ReplyInMeans | client/libEvent/src/CIgniteMessage.cpp:418-460 | waiting for a reply, by what is read first: the text or an overrun for the right number, an exception exactly for type 0, failure for any other number, refusal or early end |
| Messages.SendAndRead | client/libEvent/src/CIgniteMessage.cpp:152-194 | any list of messages sent over a socket that takes bytes in pieces and read from one that delivers them in other pieces arrives as exactly that list, with no byte left over |
| Messages.Exchange | client/libEvent/src/CIgniteMessage.cpp:370-483 | a request and its reply over such sockets: the client writes the request's frame, the server reads exactly the request, its answer has the request's type and number, and the client gets the server's text |
| RequestReply.SeqnumsDistinct | client/libEvent/src/CIgniteMessage.cpp:298-300 | up to 2^32 constructions all requests have different numbers |
| RequestReply.StepKeepsInv | client/libEvent/src/CIgniteMessage.cpp:370-502 | every step keeps each frame to the server a request and each frame back the server's reply to its request |
| RequestReply.AcceptedRepliesMatch | client/libEvent/src/CIgniteMessage.cpp:426-434 | in every run with at most 2^32 constructions an accepted reply was made for that very request, late replies notwithstanding |
| RequestReply.PromptReplyIsAccepted | client/libEvent/src/CIgniteMessage.cpp:393-434 | from any state with nothing on its way, a request answered at once is accepted with that answer, whose type and number are its own |
| RequestReply.CounterWrapMixesReplies | client/libEvent/src/CIgniteMessage.cpp:298-300 | with 2^32 + 1 constructions some run accepts a reply made for another request |
| EventSender.CIgniteEventSender.constructor | client/libEvent/src/CIgniteEventSender.cpp:38-42 | no connection, queueing allowed, nothing queued |
| EventSender.CIgniteEventSender.AddEventToStartUpQueue | client/libEvent/src/CIgniteEventSender.cpp:156-174 | the event is queued exactly when it fits in 20480 bytes and the queue can be locked |
| EventSender.CIgniteEventSender.SendQueued | client/libEvent/src/CIgniteEventSender.cpp:79-90 | all queued events go out oldest first whatever the results, each as it is, or as the empty text when it is too long for a message; queueing ends with the first |
| EventSender.CIgniteEventSender.Send | client/libEvent/src/CIgniteEventSender.cpp:66-115 | with a connection the wire gets every queued event and then the new one, each as it is or empty when too long, the queue is empty and the id is -1 exactly after a failed last transmission; without one nothing goes out and the event waits exactly when it fits |
| EventSender.StepAccounts | client/libEvent/src/CIgniteEventSender.cpp:66-115 | one call keeps every event in exactly one of attempted, waiting, dropped |
| EventSender.StepKeepsBound | client/libEvent/src/CIgniteEventSender.cpp:156-174 | one call keeps the queue within 20480 bytes, never turns the flag on, and never queues with the flag off |
| EventSender.RunAccounts | client/libEvent/src/CIgniteEventSender.cpp:66-174 | over every run attempts follow call order, none twice, every event is attempted, waiting or dropped, and the queue is bounded |
| EventSender.WireIsAttempts | client/libEvent/src/CIgniteEventSender.cpp:66-115 | over every run as many texts are transmitted as events attempted, and each is the event as submitted, or the empty text when it does not fit a message |
| EventSender.QueueingEndsForGood | client/libEvent/src/CIgniteEventSender.cpp:86-89 | once the flag is off it stays off and the queue stays empty |
| EventSender.QueueingEndsWhenDrained | client/libEvent/src/CIgniteEventSender.cpp:79-90 | the flag is off exactly when some earlier call found a connection while events waited |
| AttachmentNames.TruncateFileByExtn | client/libEvent/src/CIgniteEvent.cpp:444-461 | the resized name is the one with the extension cut to three characters |
| AttachmentNames.TruncateFileByFileName | client/libEvent/src/CIgniteEvent.cpp:463-488 | an over-long name is rebuilt with the file name cut by the excess, not below 15 |
| AttachmentNames.TruncateFileByFileType | client/libEvent/src/CIgniteEvent.cpp:490-513 | an over-long name is rebuilt with the type cut, not below 16, and the device id for the event id |
| AttachmentNames.TruncateFileByEventName | client/libEvent/src/CIgniteEvent.cpp:515-538 | an over-long name is rebuilt with the event id cut, not below 16 |
| AttachmentNames.BuildName | client/libEvent/src/CIgniteEvent.cpp:671-709 | the four stages in sequence give the name of the first stage that suffices |
| AttachmentNames.StoredNameFits | client/libEvent/src/CIgniteEvent.cpp:49-53 | every stored name has at most 90 characters including ".gz", and a name that fits is unaltered |
| AttachmentNames.EnoughToCutFile | client/libEvent/src/CIgniteEvent.cpp:444-488 | extension 3 and file name 15 suffice exactly when the first two stages do; then the other five parts are whole and the cut is minimal |
| AttachmentNames.JoinedFields | client/libEvent/src/CIgniteEvent.cpp:672-675 | splitting a name on underscores gives its parts back |
| AttachmentNames.SixthFieldIsCount | client/libEvent/src/CIgniteEvent.cpp:667-709 | through all stages the sixth field of an accepted name is the attachment count |
| AttachmentNames.NamesDistinct | client/libEvent/src/CIgniteEvent.cpp:667-709 | different counts give different stored names |
| AttachmentNames.EventOfFinal | client/libEvent/src/CIgniteEvent.cpp:490-538 | for all parts: the event comes out whole, replaced by the device id, or cut, and exactly when |
| AttachmentNames.PartsOfFinal | client/libEvent/src/CIgniteEvent.cpp:444-538 | after all stages device, timestamp and count are whole, and of extension, file and type a beginning is left whose length is given for all parts |
| AttachmentNames.EventFieldOfStored | client/libEvent/src/CIgniteEvent.cpp:490-538 | the event field of an accepted name is the device id exactly when the third cut makes the name fit, otherwise the event id, whole or cut |
| AttachmentNames.StoredMeans | client/libEvent/src/CIgniteEvent.cpp:667-709 | a stored name of at most 87 characters is the literal concatenation of its information; of every other the fields are the device id, a beginning of the type, the event or device id, the timestamp and the number, in that order |
| AttachmentNames.AcceptedExactlyWhen | client/libEvent/src/CIgniteEvent.cpp:540-594 | some stage makes the name fit exactly when the shortest name fits and the event is cut enough, or the device id in the event's place fits |
| AttachmentNames.GivesUpTooEarly | client/libEvent/src/CIgniteEvent.cpp:588-594 | names refused at 97 characters that could have been cut to 86 |
| AttachmentNames.EventIdCanBeLost | client/libEvent/src/CIgniteEvent.cpp:505 | a type of 80 characters meets the condition: the accepted name has no event id |
| AttachmentNames.DecimalIsInjective | client/libEvent/src/CIgniteEvent.cpp:668-669 | different counts print differently |
| AttachmentNames.DecimalMeans | client/libEvent/src/CIgniteEvent.cpp:668-669 | the count is printed as decimal digits that stand for it, without leading zeros |
| AttachmentStore.CompressedElsewhere | client/libEvent/src/CIgniteEvent.cpp:316-333 | the compressed copy never overwrites its source |
| AttachmentStore.PathMeans | client/libEvent/src/CIgniteEvent.cpp:277-333 | a path put together from a directory, a name and an extension comes apart into name and extension; where its compressed copy goes |
| AttachmentStore.OddPathMeans | client/libEvent/src/CIgniteEvent.cpp:277-297 | a path without a slash has no name; a dot before the last slash makes an extension that runs across it |
| AttachmentStore.RemoveShrinks | client/libEvent/src/CIgniteEvent.cpp:363-381 | removing a file lowers the directory total by exactly its size |
| AttachmentStore.WriteAdds | client/libEvent/src/CIgniteEvent.cpp:363-381 | writing a file raises the total by at most its size, and not at all outside the directory |
| AttachmentStore.StoredInMeans | client/libEvent/src/CIgniteEvent.cpp:363-381 | the files counted are exactly the directory's own files whose names do not begin with a dot |
| AttachmentStore.Disk.Compress | client/libUtils/src/CIgniteFileUtils.cpp:164-228 | what each way of succeeding or failing leaves of the target |
| AttachmentStore.Disk.Copy | client/libUtils/src/CIgniteFileUtils.cpp:48-65 | what a complete, partial or impossible copy leaves of the target |
| AttachmentStore.Disk.TotalSize | client/libEvent/src/CIgniteEvent.cpp:363-381 | the sum over the visible files of the directory, in whatever order they are listed |
| AttachmentStore.CIgniteEvent.ValidateOutFileName | client/libEvent/src/CIgniteEvent.cpp:383-431 | accepted exactly under the count, path, device, size, total and underscore conditions; each code names the first violated one and its suffix |
| AttachmentStore.CIgniteEvent.CompressFile | client/libEvent/src/CIgniteEvent.cpp:335-361 | the size and the files after every outcome; the size is at most the source's, the copy is kept only then, and the source is untouched |
| AttachmentStore.CIgniteEvent.FinalizeOutFileName | client/libEvent/src/CIgniteEvent.cpp:540-595 | a fitting name stores the file, counts it, and removes the source only after a complete copy on request; any other changes nothing on disk |
| AttachmentStore.CIgniteEvent.StoreFile | client/libEvent/src/CIgniteEvent.cpp:632-729 | compression, limits, naming and storing composed: when a file is accepted and whether compressed; an accepted one leaves the directory within the total, a refused one exactly what compression left |
| AttachmentStore.CIgniteEvent.AcceptAttach | client/libEvent/src/CIgniteEvent.cpp:597-746 | a request is accepted exactly when its file, path, name and sizes meet every limit; the accepted name has device id, type, event id, timestamp and number in their places; the stored file has the checked size, and the source goes exactly after a complete copy on request; for every bound over the total limit and the directory before, the directory stays within it exactly when the request fits, a condition on the files before the call |
| AttachmentStore.CIgniteEvent.ProcessAttachment | client/libEvent/src/CIgniteEvent.cpp:995-1006 | over every list of requests: at most 100 attachments and pairwise distinct names; and the directory is within the larger of its starting total and the limit after every request exactly when each request in turn fits |
| AttachmentStore.CopyRemoved | client/libEvent/src/CIgniteEvent.cpp:725-729 | removing the compressed copy at the end leaves, after a refusal, exactly what compression alone would have left |
| AttachmentStore.RefusalBound | client/libEvent/src/CIgniteEvent.cpp:643-729 | what a refused request leaves is within a bound exactly when the kept copy fits beside the other files, for every directory and environment, an overwritten copy included |
| AttachmentStore.AcceptedFits | client/libEvent/src/CIgniteEvent.cpp:646-660 | a kept copy is among the files the limit counts, so an accepted request fits |
| AttachmentStore.RefusedCopyStays | client/libEvent/src/CIgniteEvent.cpp:725-729 | a request through the whole code that breaks the bound |
| EventJson.CIgniteEvent.ExtractName | client/libEvent/src/CIgniteEvent.cpp:862-869 | what follows the first underscore, with it, is filed in the data under what precedes it, exactly when there is one and the data takes members; otherwise it raises and changes nothing |
| EventJson.CIgniteEvent.ListAttachments | client/libEvent/src/CIgniteEvent.cpp:811-831 | the list keeps the first name and the later stored ones, and the data takes the others |
| EventJson.CIgniteEvent.EventToJson | client/libEvent/src/CIgniteEvent.cpp:798-859 | the printed object member by member: the data it leaves, id, version, timestamp and zone or null, personal fields when not empty, the mode exactly in bench mode, optional ids exactly when the event has them, the list exactly when there are attachments; when it raises; every field still reads the same |
| EventJson.PrintMeans | client/libEvent/src/CIgniteEvent.cpp:798-859 | every printed object holds exactly what the event holds; printing raises exactly when a rejected name after the first has no underscore, or there is one and the data cannot take members |
| EventJson.MovesExactlyWhen | client/libEvent/src/CIgniteEvent.cpp:811-869 | which lists of names the data can take in |
| EventJson.CIgniteEvent.TakeNames | client/libEvent/src/CIgniteEvent.cpp:234-241 | appends the listed names as strings, or raises at the first that is none |
| EventJson.CIgniteEvent.JsonToEvent | client/libEvent/src/CIgniteEvent.cpp:219-264 | a parse that gets through, member by member: converted if given, id, version and timestamp from null otherwise, the rest left as they were; data and personal fields as given, names added at the end |
| EventJson.ParseMeans | client/libEvent/src/CIgniteEvent.cpp:219-264 | the same for every event and object, whatever the members are |
| EventJson.RaisesMeans | client/libEvent/src/CIgniteEvent.cpp:219-264 | a parse raises exactly when one of the members it reads does not convert |
| EventJson.StoredNamesAreStored | client/libEvent/src/CIgniteEvent.cpp:818-830 | later names kept in the list all begin with "v3_", and a list of such names is kept whole |
| EventJson.StoredNamesInOrder | client/libEvent/src/CIgniteEvent.cpp:818-830 | the list keeps its order |
| EventJson.StoredNamesKeptOnce | client/libEvent/src/CIgniteEvent.cpp:818-830 | each stored name is kept as often as it was attached, and no other name is |
| EventJson.RejectedIsFiled | client/libEvent/src/CIgniteEvent.cpp:862-869 | a rejected name's error is in the data under what precedes its first underscore, unless a later one replaced it |
| EventJson.OthersAreLeft | client/libEvent/src/CIgniteEvent.cpp:862-869 | all other members of the data are left alone |
| EventJson.MovedMerges | client/libEvent/src/CIgniteEvent.cpp:811-833 | moving the rejected names merges one map, independent of the data, into the data's members |
| EventJson.PrintedAgain | client/libEvent/src/CIgniteEvent.cpp:798-869 | an event that has been printed prints the same again and is changed no further |
| EventJson.KeptStays | client/libEvent/src/CIgniteEvent.cpp:811-833 | a kept list is kept again and moves nothing |
| EventJson.NamesOfStrings | client/libEvent/src/CIgniteEvent.cpp:234-241 | a printed list of names is read back as that list |
| EventJson.WrittenTwice | client/libUtils/src/jsoncpp.cpp:3824-3859 | what is read from a text is written as that text again, through arrays and objects |
| EventJson.WrittenMeans | client/libUtils/src/jsoncpp.cpp:3824-3859 | the text changes whole doubles between -10^17 and 10^17 into the equal integer and nothing else, at every depth |
| EventJson.TextOfRoot | client/libEvent/src/CIgniteEvent.cpp:798-859 | the text of a printed event is that of the event with the values its text is read back as |
| EventJson.ConvertsToItself | client/libUtils/src/jsoncpp.cpp:2789-2910 | a conversion leaves a value as it is exactly when it has the type already |
| EventJson.AsStringMeans | client/libUtils/src/jsoncpp.cpp:2789-2812 | every conversion to a string, and that exactly arrays and objects have none; an integer gives the digits that stand for it |
| EventJson.AsIntegerMeans | client/libUtils/src/jsoncpp.cpp:2824-2910 | every conversion to an integer: a number in range keeps its whole part, truncated towards zero, the others raise |
| EventJson.FieldComesBack | client/libEvent/src/CIgniteEvent.cpp:219-264 | each field of a printed event comes back converted, and no field appears or disappears |
| EventJson.RestComesBack | client/libEvent/src/CIgniteEvent.cpp:234-248 | data, personal fields, list and mode print as before after a parse |
| EventJson.PrintParsePrint | client/libEvent/src/CIgniteEvent.cpp:219-264 | print, parse the text into a new event, print gives the same text if and only if the converted fields had, in the text, the parsed types |
| EventJson.ParsesBack | client/libEvent/src/CIgniteEvent.cpp:219-264 | a well-typed event parses back with its data, personal fields and list as values |
| EventJson.DoubleTimestamps | client/libEvent/src/CIgniteEvent.cpp:88-99 | a double timestamp meets that condition exactly when it is whole, not negative and below 10^17 |
| CpuSampler.RatioBound | client/libDevice/src/CCpuLoad.cpp:594-597 | a percentage is over 100 exactly when the part exceeds the total |
| CpuSampler.CpuLoad.constructor | client/libDevice/src/CCpuLoad.cpp:422-442 | the baseline is the first reading, or zero |
| CpuSampler.CpuLoad.GetCpuUsage | client/libDevice/src/CCpuLoad.cpp:544-620 | from the counters: a fresh reading gives the busy ticks as a percentage of all ticks; a quiet, reset or over-100 one the previous percentage, an unreadable one 0; when the over-100 branch is taken |
| CpuSampler.SampleMeans | client/libDevice/src/CCpuLoad.cpp:544-620 | the same with the state after it: which baseline each kind of reading leaves |
| CpuSampler.ResultsArePercentages | client/libDevice/src/CCpuLoad.cpp:568-615 | in every run, resets and wrap-around included, each result is between 0 and 100 |
| CpuSampler.OverHundredIffWraps | client/libDevice/src/CCpuLoad.cpp:601-606 | the over-100 branch is taken exactly when the 64-bit total wraps |
| CpuSampler.WrapIsPossible | client/libDevice/src/CCpuLoad.cpp:594-596 | one such pair of readings, within the range the scan conversion accepts |
| CpuSampler.TotalsTelescope | client/libDevice/src/CCpuLoad.cpp:577-615 | the totals behind the fresh percentages sum to last baseline minus first, and quiet readings keep their idle ticks for later |
| CpuSampler.TotalsNeverExceed | client/libDevice/src/CCpuLoad.cpp:568-615 | with counters that do not go back the fresh totals never exceed what the baseline advanced by; one reading 2^64 ticks past it loses ticks for good |
| CpuSampler.RunAccountsForEveryTick | client/libDevice/src/CCpuLoad.cpp:568-615 | with counters that do not go back, no tick is lost or counted twice exactly when no reading is 2^64 ticks past its baseline; the percentages the calls return, weighted by their totals, are then exactly the busy time |

## Left out

- LockFreeProof.Linearizable: nodes are never reused in the concurrent machine; `Take` frees the old head at once (line 338), and reading a freed node or a reused address is not modelled (`SequentialQueues` does free nodes, for one thread). Atomic operations are sequentially consistent, a node's `value` is read and written in one step, and pointers fit in 32 bits when sizes are tracked.
- LockFreeProof.SizeIsQueuedTotal: the process exit when sizes are not tracked is not a step of the machine; `SequentialQueues` has it.
- SequentialQueues.BothBuildsAgree: sizes are tracked, locks are free and a 32-bit address is left for every new node.
- SequentialQueues.MutexQueue.Put: the sleep between attempts, and interleaved callers of the mutex build.
- LockFreedom.LockFree: a single operation may be overtaken for as long as others keep calling (the build is not wait-free), and the compare-and-swap is the strong one, which does not fail spuriously.
- The destructors of the queue.
- Messages.OperateOnSocket: `select` and the transfer calls are parameters; the bytes a socket holds are all that its peer will deliver. The struct size and byte order are parameters too.
- Messages.CIgniteMessage.Send: the exception a reply of type 0 raises is a result; allocation failure is left out.
- Messages.CIgniteMessage.Reply: the raw-byte overload, which differs only in the payload it sets.
- RequestReply.AcceptedRepliesMatch: frames arrive whole or not at all, on one connection of one client; a torn frame is only covered by `Messages.ReadMessage`.
- Opening, connecting and closing sockets, signals and ZMQ.
- EventSender.CIgniteEventSender.Send: the startup queue is the mutex build; connecting and the result of each transmission are parameters, so the id after a failed connect is any negative number.
- AttachmentStore.CIgniteEvent.ProcessAttachment: configuration stays fixed during a call, file sizes and their sum are not limited to the int range, and file contents, zlib, the CRC and `sync` are left out.
- AttachmentStore.CIgniteEvent.AcceptAttach: creating the temporary directory, and other processes changing files meanwhile.
- EventJson.CIgniteEvent.JsonToEvent: what an exception leaves of a half-read event, and JSON text that does not parse to an object.
- EventJson.PrintParsePrint: doubles are finite and zero has no sign (a negative zero is written `-0` and read as 0, an infinity is not read back); apart from whole doubles the JSON writer and reader are taken to be inverse on values; the text of other doubles is a parameter, and 2^64 as a double timestamp raises where the C++ cast is undefined.
- EventJson.CIgniteEvent.EventToJson: fields added by `AddDeviceId` are never printed and not kept.
- CpuSampler.CpuLoad.GetCpuUsage: exact rationals for doubles, and no rounding to float on return; a zero total counts as an infinite percentage, as it is in doubles.
- The QNX form of the sampler and its log of processes.
- main.cpp, command-line parsing, logging, the C wrapper, device attributes, the message dispatcher and the command handler.
- The sources of libCore, libClientBL, libNetwork and libAuto are not part of this model.
