# Verified model of the fx server

This project models five parts of the fx TCP server and proves what they are for.

* **Timer wheel.** Five rings of slots, two copies of the hands, a map of timers and a
  queue of deadlines stand for one plain thing: the list of live timers in creation order.
  `TimerRings`, `TimerCascade` and `TimerSplice` show that every slot is a filter of that
  list and stays one through insertion, removal, and the cascade of a step. `TimerWheels`
  runs the loops of the source on a class and ties every method to the plain list.
  `TimerPlan` and `TimerRuns` prove what the plain list promises: who fires, in what order,
  and that over any run every created timer is live, fired or removed, once.
  `TimerRequests` reads off the operations alone what a run must create, remove and step.
* **Substring search.** `Matching` defines occurrences and the exact matching automaton.
  The table search `InternalFind` computes that automaton and is right for every text and
  every pattern. The failure-table search `find` is sound and linear for every pattern but
  may miss occurrences. `EntriesAreLongestIff` says in terms of borders alone which patterns
  get a table of longest borders, on which the search is right. `FailureTable.FindIsRightIffExact` says for which patterns it is
  right on all texts, `Slices.IsFindRight` decides it, and `FindMissesAnOccurrence` names an
  input on which it is not.
* **Ring buffer.** `RingBuffers` is the length-framed queue in a fixed piece of memory, with
  headers and bodies that wrap separately. Its length check leaves out the header;
  `FramesAppendExactly` says which accepted messages are queued. `SpscRing` runs one producer and one consumer on
  it in every interleaving of offset reads, single byte copies and offset stores, and
  `SpscProgress` shows that each of them gets on.
* **HTTP request parser.** `HttpParsing` gives the four state functions and the driver loop
  as functions; `HttpCodecs` proves the methods over the mutable state and buffer against
  them. The outcome does not depend on how the stream is cut, and the parser is done on
  exactly the printed requests, to which it gives their meaning (`HttpRoundTrip`). Malformed
  and incomplete texts are characterised just as exactly (`HttpVerdicts`), and `Receive` ties
  the bytes of a stream to the callbacks.
  The printed form is the message syntax of sections 3.1.1, 3.2 and 3.3.2 of RFC 7230 in the
  one spelling that the parser takes (`": "` as separator; the first of two equal headers
  wins).
* **Event loop and connections.** `EventLoops` is the functor queue with its wakeup pipe,
  `ConnectionLifetime` the accepting, closing and destroying of connections over all loops;
  both are step systems with an invariant that every step keeps, and what they record is
  tied to the steps of the run. `TcpConnections` and
  `Buffers` are the connection's state, its output stream and the growing byte queue.

Clocks, sockets, the poller, logging and memory pools are inputs or are absent. A method
argument `now` is the clock, `Answer` values are what the kernel answers, and callbacks are
numbers that stand for the function objects.

Where the code and its intent part, the model follows the code:

* `find` never fills in entry 1 of its table and never compares base 0, so entries may be
  shorter than the longest border. The debug assertions after its loop fail exactly on the
  texts where the result is not the leftmost occurrence.
* A parse error reaches the request callback when no error callback is set
  (`CompleteRequestsNeedErrorCallback`).
* An announced body of length 0 runs into an assertion. `AbortsExactlyOnAnnouncedNothing`
  gives the texts on which this happens, and `ContentLengthZeroAborts` one of them.
* The ring accepts some messages without room for the header. `Push` and
  `FramesAppendExactly` say which of them are queued; `LoseAMessage` is a run that loses one.
  `CopiesStayInside` says which are copied past the end of the memory, and `CopyPastTheEnd`
  is a run that does it.
* A read that would block is taken for the largest size; `ReadFromPeer` says that this is the
  only answer for which the copy is not safe.
* A popped message is right even if its header crosses the end of the ring, but the front
  offset then stops inside the message; `Pop` says so with an equivalence, and
  `StopInsideAMessage` is a run that gets there.
* A functor queued by a timer callback gets no wakeup, and the loop can block on it
  (`SleepsExactlyOnTimerFunctors`, `TimerFunctorsAreSleptOn`).

`dafny verify dfyconfig.toml` checks everything.

## Model

| member | source | states |
|---|---|---|
| TimerWheels.AddToHands | src/fx_timer_wheel.cc:230-280 | Adding an interval to the hands with carries is exact addition of the time they show; the position returned is the least wheel above which no digit changes; overflow happens exactly from 2^31 on, and the final assertion is reached exactly at 2^31. |
| TimerWheels.FindHighestHand | src/fx_timer_wheel.cc:268-279 | The overflow position is the highest non-zero hand, and there is none exactly when all hands are zero. |
| TimerWheels.TimerWheel.FindPos | src/fx_timer_wheel.cc:230-263 | The same for the wheel's hands; the current copy never changes, and with the update flag the other copy becomes the sum. |
| MixedRadix.ValueOfDigits | src/fx_timer_wheel.cc:27-28 | The five digits of a time determine it modulo 2^31. |
| MixedRadix.PositionDecides | src/fx_timer_wheel.cc:142-186 | Whether a deadline is past the new time follows from its wheel and slot alone, except in the slot where the hands stop. |
| MixedRadix.PositionAfter | src/fx_timer_wheel.cc:211-225 | When time moves, the position of a deadline still ahead changes exactly if it was in the slot where the hands stopped, and then to a lower wheel. |
| TimerRings.CanonicalPlacement | src/fx_timer_wheel.cc:121-263 | A live timer sits in the wheel of the highest digit where its deadline differs from the hands, in the slot that digit names, and in no other. |
| TimerRings.RingsAreCanonical | src/fx_timer_wheel.cc:74-74 | The content and order of all slots depend on the live timers and the hands only, not on the history of insertions and cascades. |
| TimerRings.InsertKeepsIndex | src/fx_timer_wheel.cc:64-82 | Appending a new timer at its position keeps every slot equal to the filter of the live timers. |
| TimerRings.UnlinkKeepsIndex | src/fx_timer_wheel.cc:93-103 | Unlinking a timer keeps it too. |
| TimerCascade.SlotFiresWhole | src/fx_timer_wheel.cc:142-166 | Every slot spliced without looking at its timers holds due timers only. |
| TimerCascade.NothingDueBeyond | src/fx_timer_wheel.cc:142-186 | No timer in a slot that the step leaves alone is due. |
| TimerCascade.LowerSlotsRefill | src/fx_timer_wheel.cc:211-225 | After a step the lower wheels hold exactly what the split slot had left, in its order. |
| TimerCascade.SlotBeyondStays | src/fx_timer_wheel.cc:211-225 | The slots beyond the stop already hold what they must hold at the new time. |
| TimerSplice.SpliceLowerWheels | src/fx_timer_wheel.cc:142-151 | The nested loops empty the lower wheels into one list, which is the due timers of those wheels in firing order. |
| TimerSplice.SpliceSlots | src/fx_timer_wheel.cc:162-166 | The same for the slots that the stopped hand passes. |
| TimerSplice.SplitSlot | src/fx_timer_wheel.cc:168-185 | The due timers of the last slot are appended to the list; the others stay in their order. |
| TimerSplice.SpliceDue | src/fx_timer_wheel.cc:142-187 | The whole list is the firing order of the plain list of timers. |
| TimerSplice.CascadeStep | src/fx_timer_wheel.cc:217-225 | One round of the cascade takes the next timer out of the split slot and appends it at its new position below. |
| TimerSplice.CascadeEnds | src/fx_timer_wheel.cc:211-225 | After the last round every slot is the filter of the pending timers at the new time. |
| TimerSplice.PopExpired | src/fx_timer_wheel.cc:191-194 | Popping all deadlines up to now leaves exactly the deadlines of the pending timers. |
| TimerSplice.Retire | src/fx_timer_wheel.cc:196-209 | The callbacks are handed out in firing order and exactly the fired timers leave the map. |
| TimerWheels.WithoutOne | src/fx_timer_wheel.cc:105-118 | Rebuilding the queue drops exactly one occurrence of the deadline. |
| TimerWheels.TimerWheel.RunAfter | src/fx_timer_wheel.cc:64-82 | Creates the next id with deadline last step plus interval and keeps rings, map and queue in step with the plain list. |
| TimerWheels.TimerWheel.RunAt | src/fx_timer_wheel.cc:84-91 | The same for an absolute deadline; one in the past is due at once. |
| TimerWheels.TimerWheel.RemoveTimer | src/fx_timer_wheel.cc:93-119 | Takes exactly that timer out of rings, map and queue. |
| TimerWheels.TimerWheel.Step | src/fx_timer_wheel.cc:121-228 | Hands out the callbacks of exactly the due timers in firing order and leaves exactly the pending ones, in canonical places at the new time. |
| TimerWheels.TimerWheel.NextTimeout | src/fx_timer_wheel.cc:47-57 | -1 exactly when nothing is live, otherwise the exact wait until the earliest deadline. |
| TimerWheels.TimerWheel.Start | src/fx_timer_wheel.cc:59-62 | On an empty wheel only the time of the last step moves, and the origin of the hands with it. |
| TimerWheels.Execute | src/fx_timer_wheel.cc:64-228 | Over every run of operations the wheel's plan and the callbacks it hands out are those of the plain list of timers. |
| TimerWheels.LiveThrough | src/fx_timer_wheel.cc:30-228 | A new wheel that is started and run hands out, in order, the callbacks that its operations gave to the timers that fired, every timer created in it is accounted for, and the timers fire in order. |
| TimerPlan.FiringOrderIsExact | src/fx_timer_wheel.cc:196-201 | The firing order holds exactly the due timers, each once, by wheel, then slot, then creation. |
| TimerPlan.EqualDeadlinesFireInCreationOrder | src/fx_timer_wheel.cc:142-225 | Within a step, timers with equal deadlines fire in creation order, however they were inserted and cascaded. |
| TimerPlan.DisorderIsBounded | src/fx_timer_wheel.cc:142-186 | A timer that fires before an earlier deadline shares a slot above wheel 0 with it, so the deadlines differ by less than that slot's width, and it was created first. |
| TimerRuns.RunsAccountForEveryTimer | src/fx_timer_wheel.cc:64-228 | Over every run from an accounted history the created timers stay the disjoint union of live, fired and removed ones, ids count them, and each fired timer fired at the first step, of those since its creation, at or after its deadline. |
| TimerRuns.NewRunsAccountForEveryTimer | src/fx_timer_wheel.cc:59-228 | So it is over every run of a new wheel, from its start on. |
| TimerRuns.RunsFireInOrder | src/fx_timer_wheel.cc:64-228 | Over every run of a new wheel timers with equal deadlines fire in creation order, by whichever steps, a later deadline overtakes an earlier one within a single step only, and everything fired comes before everything live. |
| TimerRequests.RunsDoAsAsked | src/fx_timer_wheel.cc:64-228 | Over every run the created timers have the ids, deadlines and callbacks that the operations alone determine, the removed ids are those of the removals, and every firing belongs to one of the steps. |
| TimerRequests.FiredAsAsked | src/fx_timer_wheel.cc:196-201 | A fired timer is, with deadline and callback, the one that the operations created under its id. |
| TimerRuns.FiresExactlyOnce | src/fx_timer_wheel.cc:196-209 | A step moves exactly the due timers, each once, from live to fired; none is early or overdue since the step before. |
| TimerRuns.WaitIsExact | src/fx_timer_wheel.cc:47-57 | A step before the wait is over fires nothing; a step right then fires exactly the timers with the earliest deadline. |
| Matching.DeltaTracks | src/fx_slice.cc:191-195 | The state after one more character depends on the state alone, not on the text. |
| Matching.DeltaFallsBack | src/fx_slice.cc:181-189 | On a mismatch a column of the automaton equals the column of the border. |
| Matching.ScanStep | src/fx_slice.cc:191-198 | The first time the automaton reaches its last state, the occurrence that ends there is the leftmost. |
| Slices.Subslice | src/fx_slice.cc:79-86 | The characters from a position on, cut to the length asked for or to what there is. |
| Slices.BuildDfa | src/fx_slice.cc:169-189 | Entry (c, j) is the length of the longest prefix of the pattern that its first j characters followed by c end with. |
| Slices.InternalFind | src/fx_slice.cc:167-199 | The leftmost occurrence, or none exactly when there is none, for every text and non-empty pattern. |
| Slices.BuildNext | src/fx_slice.cc:93-120 | The loops fill in the failure table as its recursive definition says. |
| Slices.FallBack | src/fx_slice.cc:107-111 | The inner loop falls back through the table until the character continues the base, or to zero. |
| Slices.Find | src/fx_slice.cc:88-160 | Whatever is found is an occurrence, at most two rounds per character are needed, and the leftmost one is found for all patterns whose table falls back exactly, in particular where no longest border of one character comes at once or behind another border. |
| FailureTable.TableHoldsBorders | src/fx_slice.cc:93-120 | Every table entry is a proper border of its prefix. |
| FailureTable.FoundIsSound | src/fx_slice.cc:122-149 | A reported position is an occurrence. |
| FailureTable.FindIsRightIffExact | src/fx_slice.cc:88-160 | The search is right on every text exactly for the patterns whose table takes every mismatch on a character of the pattern to the longest prefix that can go on. |
| FailureTable.TrapSprings | src/fx_slice.cc:133-144 | For each state and character where the table falls back too far there is a text on which the search fails. |
| FailureTable.LongestBordersAreExact | src/fx_slice.cc:93-120 | Longest borders in the entries that are used are enough. |
| FailureTable.EntriesAreLongestIff | src/fx_slice.cc:93-120 | The table entries that the search uses are the longest borders if and only if no longest border of one character comes at the second position or behind another border; then the search is right on every text. |
| FailureTable.NextEntryIsBorderUnless | src/fx_slice.cc:98-120 | Behind longest borders the next entry is the longest border, except that it is zero where that is one character and the entry before is not zero. |
| FailureTable.ShortPatternsAreExact | src/fx_slice.cc:94-97 | Patterns of one or two characters, such as CRLF, are always found. |
| FailureTable.FindMissesAnOccurrence | src/fx_slice.cc:97-118 | `aab` in `aaab` occurs at 1 and is not found. |
| Slices.SearchesAgree | src/fx_slice.cc:88-199 | Where the table falls back exactly, both searches give the same result. |
| Slices.IsFindRight | src/fx_slice.cc:93-189 | Comparing the two tables of a pattern decides whether the failure-table search is right on every text. |
| ByteRing.LengthRoundTrip | base/bus/ring_buffer.cc:122-122 | Decoding the four header bytes gives the length back. |
| ByteRing.DropFrame | base/bus/ring_buffer.cc:165-191 | The oldest frame lies at the front offset and the other frames behind it, around the end. |
| ByteRing.FrameParts | base/bus/ring_buffer.cc:169-190 | Header and body of a frame are found separately, wherever the frame wraps. |
| ByteRing.FramesAppendExactly | base/bus/ring_buffer.cc:35-45 | Writing a frame that is no longer than the memory shows the queue with the message appended if and only if the frame leaves a cell free, or ends with the memory while the front is at its start. |
| ByteRing.LongFramesAreLost | base/bus/ring_buffer.cc:35-45 | A frame longer than the memory is never queued, whatever bytes are written. |
| RingBuffers.LoseAMessage | base/bus/ring_buffer.cc:40-40 | A run on 12 bytes in which a message of 8 passes the length check and the ring then looks empty. |
| RingBuffers.RingBuffer.CopiesStayInside | base/bus/ring_buffer.cc:127-150 | A message that passes the length check is copied past the end of the memory if and only if the ring is empty and back offset, header and message add up to more than twice the capacity. |
| RingBuffers.CopyPastTheEnd | base/bus/ring_buffer.cc:139-149 | A run on 12 bytes: after a message of 8 is pushed and popped, one of 9 passes the length check and is copied past the end. |
| RingBuffers.StopInsideAMessage | base/bus/ring_buffer.cc:172-177 | A run on 12 bytes: the third message of one byte is popped right, and the ring, which holds no message, does not look empty. |
| RingBuffers.RingBuffer.Push | base/bus/ring_buffer.cc:35-45 | Accepts a message if its length is at most the free space and otherwise changes nothing; says which accepted ones are copied past the end; after any other, all queued messages stay readable if and only if the frame fits. |
| RingBuffers.RingBuffer.Write | base/bus/ring_buffer.cc:114-152 | In each of the three layouts the memory behind the back offset holds header and body, every other byte is unchanged, and the back offset moves past them; stops exactly before a copy that leaves the memory. |
| RingBuffers.RingBuffer.Pop | base/bus/ring_buffer.cc:47-61 | Returns the oldest message byte for byte in every layout; the rest of the queue stays intact exactly when the header did not cross the end. |
| RingBuffers.RingBuffer.Read | base/bus/ring_buffer.cc:154-192 | The three layouts of a read give the same message, and say where the front offset ends up. |
| RingBuffers.RingBuffer.SpaceLeft | base/bus/ring_buffer.cc:63-75 | Capacity minus one minus the bytes in use, for both orders of the offsets. |
| RingBuffers.RingBuffer.EmptyMeansNoMessage | base/bus/ring_buffer.cc:77-80 | Equal offsets mean exactly that no message is queued. |
| RingBuffers.RingBuffer.SpaceIsAccounted | base/bus/ring_buffer.cc:63-75 | The lengths of the queued frames add up to capacity minus one minus the free space. |
| SpscRing.WriteByteIsSafe | base/bus/ring_buffer.cc:119-150 | Copying one byte of a new frame keeps the queue, the producer's and the consumer's view. |
| SpscRing.StoreBackIsSafe | base/bus/ring_buffer.cc:151-151 | Storing the back offset publishes exactly the new message behind the others. |
| SpscRing.StoreFrontIsSafe | base/bus/ring_buffer.cc:172-191 | Storing the front offset removes exactly the message that was read. |
| SpscRing.PoppedIsPrefixOfPushed | base/bus/ring_buffer.cc:35-61 | Under every interleaving of offset reads, byte copies and offset stores the popped messages are the first pushed ones, in order and byte for byte, and a later emptiness check never fails. |
| SpscRing.WritesMissUnreadBytes | base/bus/ring_buffer.cc:63-192 | Under every interleaving no byte still to be read is written over. |
| SpscProgress.MessageIsPushed | base/bus/ring_buffer.cc:35-45 | From every safe state a message with room for its frame is pushed by the producer alone. |
| SpscProgress.MessageIsRefused | base/bus/ring_buffer.cc:40-40 | A message longer than the free space is refused and nothing changes. |
| SpscProgress.MessageIsPopped | base/bus/ring_buffer.cc:47-61 | From every safe state with a queued message the consumer alone pops the oldest. |
| HttpText.FindFirstIsLeftmost | examples/httpserver/src/http_codec.cc:153-155 | The first-occurrence search used for line ends, separators and the version is leftmost. |
| HttpText.JoinOfSplit | examples/httpserver/src/http_utilities.cc:21-35 | Splitting loses nothing: joining the parts gives the text back. |
| HttpText.SplitOfJoin | examples/httpserver/src/http_utilities.cc:21-35 | Splitting undoes joining when no part contains the separator. |
| HttpText.NumbersAreRead | examples/httpserver/src/http_codec.cc:190-203 | Exactly the spellings of numbers below 2^32 are read, alone or behind a sign; behind a minus sign the result and the number add up to zero modulo 2^32. |
| HttpText.LettersAreFolded | examples/httpserver/src/http_codec.cc:269-270 | Each of the 26 letters goes to its lower-case letter, and nothing else changes. |
| HttpCodecs.SplitString | examples/httpserver/src/http_utilities.cc:21-35 | The loop yields exactly the parts between separators. |
| HttpCodecs.FindLineEnd | examples/httpserver/src/http_codec.cc:152-155 | The failure-table search finds the first CRLF. |
| HttpCodecs.HTTPRequest.AddHeader | examples/httpserver/src/http_request.cc:27-36 | The first value of a header wins; the result says whether it was new. |
| HttpCodecs.GetHeaderGivesFirstField | examples/httpserver/src/http_request.cc:51-60 | In a parsed request the lookup gives the value of the first field with the name, in lower case, and nothing if and only if no field has it. |
| HttpParsing.AdvanceProgresses | examples/httpserver/src/http_codec.cc:85-89 | Each successful state function consumes bytes or moves on, so the driver loop ends. |
| HttpParsing.AdvanceExtends | examples/httpserver/src/http_codec.cc:134-296 | A state function that needs more has changed nothing, and one that does not ignores what follows. |
| HttpParsing.DriveExtends | examples/httpserver/src/http_codec.cc:77-106 | If bytes `a` run out, going on with the leftover and `b` equals parsing `a + b` at once; otherwise `b` only extends the rest. |
| HttpParsing.ChunkingDoesNotMatter | examples/httpserver/src/http_codec.cc:77-106 | For every cutting of a stream into chunks, result, state and unconsumed bytes are those of the whole stream. |
| HttpParsing.DriveVerdict | examples/httpserver/src/http_codec.cc:91-105 | The result and the state agree: success means done, an error always carries status 400, and the failed assertion leaves the body state with length 0. |
| HttpCodecs.HTTPCodec.ReadRequestLine | examples/httpserver/src/http_codec.cc:147-209 | State, request, response and buffer after the call are those of the parsing function, on every path. |
| HttpCodecs.HTTPCodec.ReadVersionInto | examples/httpserver/src/http_codec.cc:171-203 | The version is read as two numbers, each with an optional sign, after `HTTP/` and around the first dot; an error keeps a major version already read. |
| HttpCodecs.HTTPCodec.ReadRequestHeader | examples/httpserver/src/http_codec.cc:211-274 | The same for a header line and for the blank line. |
| HttpCodecs.HTTPCodec.ReadRequestBody | examples/httpserver/src/http_codec.cc:276-296 | The same for the body. |
| HttpCodecs.HTTPCodec.OnMessage | examples/httpserver/src/http_codec.cc:77-106 | The loop runs the state functions to the outcome of the driver function and calls back accordingly. |
| HttpCodecs.Receive | examples/httpserver/src/http_codec.cc:77-106 | Chunks that arrive one by one leave state and buffer as the whole stream would; a printed request is called back once, with its meaning, a malformed text once, with status 400, and an incomplete one not at all. |
| HttpCodecs.CallbacksAreExact | examples/httpserver/src/http_codec.cc:91-105 | With both callbacks set, the request callback gets a request if and only if the bytes are a printed request with this meaning and some rest, and the error callback runs if and only if the text is malformed. |
| HttpCodecs.TextDecidesCallback | examples/httpserver/src/http_codec.cc:91-105 | Printed requests, malformed texts and incomplete texts are answered by the request callback, by status 400 and by no callback. |
| HttpCodecs.CompleteRequestsNeedErrorCallback | examples/httpserver/src/http_codec.cc:91-105 | The request callback gets complete requests only, exactly when an error callback is set. |
| HttpRoundTrip.VersionRoundTrip | examples/httpserver/src/http_codec.cc:171-203 | Reading a printed version gives both numbers back. |
| HttpRoundTrip.LineRoundTrip | examples/httpserver/src/http_codec.cc:147-209 | Reading a printed request line gives method, path and version back and leaves what follows. |
| HttpRoundTrip.FieldRoundTrip | examples/httpserver/src/http_codec.cc:256-273 | Reading a printed header line adds exactly that header. |
| HttpRoundTrip.PrintThenParse | examples/httpserver/src/http_codec.cc:77-296 | Parsing a printed well-formed request followed by any bytes gives that request and leaves exactly those bytes. |
| HttpRoundTrip.PrintThenParseChunks | examples/httpserver/src/http_codec.cc:77-296 | The same when it arrives in any pieces. |
| HttpRoundTrip.ParseThenPrint | examples/httpserver/src/http_codec.cc:77-296 | Whatever is accepted is the text of a well-formed request, and the resulting state is the meaning of that request. |
| HttpRoundTrip.AcceptsExactlyPrintedRequests | examples/httpserver/src/http_codec.cc:77-296 | Parsing ends done with a state and a remainder if and only if the bytes are a printed well-formed request with that meaning, followed by that remainder; numbers may carry a sign, as `lexical_cast` takes it. |
| HttpRoundTrip.AbortsExactlyOnAnnouncedNothing | examples/httpserver/src/http_codec.cc:276-282 | The assertion on the body length fails if and only if the bytes are a printed header that announces a body of no bytes, whatever follows it. |
| HttpVerdicts.RefusesExactlyMalformed | examples/httpserver/src/http_codec.cc:147-296 | A text is refused if and only if a complete line of it is neither a printed request line nor, behind one, a printed field, or a blank line follows an announced length that is no number; and more bytes are waited for if and only if a line end or part of the body is missing. |
| HttpRoundTrip.ContentLengthZeroAborts | examples/httpserver/src/http_codec.cc:276-282 | A plain GET request with `Content-Length: 0` runs into the assertion. |
| HttpRoundTrip.HeadersOfMeaning | examples/httpserver/src/http_request.cc:27-60 | A header is found if and only if a field has its name in lower case, and its value is that of the first such field. |
| HttpRoundTrip.HeaderLengthOfMeaning | examples/httpserver/src/http_codec.cc:266-267 | The header length of a parsed request is the length of the text of its fields modulo 2^32. |
| HttpRoundTrip.CanonicalIsWellFormed | examples/httpserver/src/http_codec.cc:147-296 | Any method, path and fields free of separators, any numbers and any body below 2^32 have a well-formed spelling, whose meaning has this method, path, version and body. |
| Buffers.Buffer.AddBytes | src/fx_buffer.cc:41-45 | Bytes stored behind the write index join the contents. |
| Buffers.Buffer.ConsumeBytes | src/fx_buffer.cc:59-68 | Exactly the first bytes leave the contents; both indices go back to the start if and only if nothing is left. |
| Buffers.Buffer.Append | src/fx_buffer.cc:70-77 | The bytes are queued behind the contents, growing the block if needed. |
| Buffers.Buffer.EnsureSpace | src/fx_buffer.cc:96-104 | There is room afterwards, the contents stay, the block grows by twice what is missing, and it is at most the reserved size or twice the highest write index. |
| Buffers.Run | src/fx_buffer.cc:41-104 | Over every run of appends and consumptions the contents are what was put and not taken, and the block stays within the reserved size or twice the largest number of bytes put between two moments at which it is empty. |
| TcpConnections.PumpConserves | src/fx_tcp_connection.cc:174-196 | However the kernel cuts a write, what was sent followed by what is pending is what was pending. |
| TcpConnections.PumpDrains | src/fx_tcp_connection.cc:174-196 | A kernel that keeps taking bytes drains the buffer. |
| TcpConnections.TcpConnection.Write | src/fx_tcp_connection.cc:72-77 | Appends to the output and asks for writability. |
| TcpConnections.TcpConnection.WriteToPeer | src/fx_tcp_connection.cc:169-230 | Sent bytes followed by pending bytes are the bytes written, and the file has left what the kernel did not take; a failure of either kind closes the connection and nothing else changes its state; the done callback runs, and writability is given up, exactly when nothing is pending. |
| TcpConnections.Deliver | src/fx_tcp_connection.cc:72-230 | After one write to a connected peer, a poller that calls as long as writability is waited for and a kernel that keeps taking bytes send everything, with one done callback at the end. |
| TcpConnections.FileDrains | src/fx_tcp_connection.cc:198-221 | What is left of a file is its length less what the kernel takes. |
| TcpConnections.TcpConnection.ReadFromPeer | src/fx_tcp_connection.cc:126-167 | Bytes that arrive are queued in order over the free part of the buffer and the rest, and the read callback runs once; end of stream or an error closes; the copy is safe if and only if the read would not have blocked. |
| TcpConnections.TcpConnection.ActiveClose | src/fx_tcp_connection.cc:87-102 | Closes an open connection and calls back once. |
| TcpConnections.TcpConnection.PassiveClose | src/fx_tcp_connection.cc:104-115 | Closes and calls back once; on a closed connection it does nothing. |
| TcpConnections.TcpConnection.ConnectedToPeer | src/fx_tcp_connection.cc:237-260 | A connecting connection is open and reading afterwards, or closed on a socket error. |
| EventLoops.StepKeepsInv | src/fx_event_loop.cc:48-190 | Every step of the loop and of other threads keeps the order of functors and the wakeup guarantee. |
| EventLoops.FunctorsRunInOrder | src/fx_event_loop.cc:113-173 | In every interleaving the ids executed followed by those still waiting are exactly the ids that the steps pushed, in order. |
| EventLoops.RoundRunsWhatWasQueued | src/fx_event_loop.cc:159-173 | After a round exactly the ids pushed by the steps before its swap have run, and the later ones wait. |
| EventLoops.RoundRunsEverything | src/fx_event_loop.cc:62-88 | From every reachable state in the poller a round is possible, with a wakeup if a byte is in the pipe, after which every functor pushed so far has run. |
| EventLoops.SleepsExactlyOnTimerFunctors | src/fx_event_loop.cc:76-126 | When the loop blocks with an empty pipe and no writer on the way, a functor waits if and only if a timer callback has queued one since the last swap, and none of another origin waits. |
| EventLoops.TimerFunctorsAreSleptOn | src/fx_event_loop.cc:78-85 | Any functor queued by a timer callback can be blocked on. |
| EventLoops.ReadyPipeHasByte | src/fx_event_loop.cc:186-190 | Reading the wakeup byte never blocks. |
| ConnectionLifetime.StepKeepsInv | src/fx_tcp_server.cc:69-109 | Every action of every thread, closes from inside the connection-closed callback included, keeps the agreement of records, map, task queues and descriptors. |
| ConnectionLifetime.EachOnceAndInOrder | src/fx_tcp_server.cc:88-109 | The close callback, the erasure and the queueing of Destroy each happen at most once, in this order, and freeing comes last. |
| ConnectionLifetime.ExactlyOnceWhenQuiet | src/fx_tcp_server.cc:69-109 | When no functor is queued and no call is under way, each connection is open, known and read from, with nothing done to it, or has been closed, erased and destroyed exactly once and may be freed. |
| ConnectionLifetime.NoDestructionDuringEvents | src/fx_tcp_connection.cc:117-124 | A connection that is handling events is not destroyed or freed, by any step of any thread. |
| ConnectionLifetime.LookupsHold | src/fx_tcp_server.cc:76-96 | The asserted lookups hold when the kernel reuses closed descriptors only, Destroy finds its connection closed and idle, and reading is started on a living connection. |
| ConnectionLifetime.StateMovesForward | src/fx_tcp_connection.cc:87-115 | The state of a connection only moves forward. |
| ConnectionTraces.RecordsFollowSteps | src/fx_tcp_server.cc:69-109 | A connection exists from its accept on, with the descriptor and loop given there; it handles events exactly between the steps that begin and end this; its close callback ran once per close; and it is freed exactly by its free step. |
| ConnectionTraces.LifeOnBaseLoop | src/fx_tcp_server.cc:69-109 | On the base loop a connection can be accepted, handle events, be closed in them, be destroyed and be freed, leaving nothing to do. |
| ConnectionTraces.LifeOnIoLoop | src/fx_tcp_server.cc:69-109 | So it can on an IO loop, with the hand-overs between the two loops. |

## Left out

- TimerWheels.TimerWheel.Step: requires that the clock does not run backwards and that times stay below 2^31 ms after the origin of the hands; with a smaller `now` line 227 stores the earlier time without moving the hands, and on overflow lines 139 and 212 index a wheel that does not exist.
- TimerWheels.TimerWheel.RunAfter: requires that the position does not overflow, for the same reason; `AddToHands` covers the overflow of the addition itself.
- TimerWheels.TimerWheel.RunAt: requires the same of the interval that it computes.
- TimerWheels.TimerWheel.Start: requires an empty wheel, since it moves the time but not the hands.
- RingBuffers.RingBuffer.Push: a call whose copy leaves the memory is followed up to that copy and no further.
- RingBuffers.RingBuffer.Write: says nothing about the bytes of a frame longer than the memory, which overwrites itself.
- RingBuffers.RingBuffer.Pop: requires that the oldest message is at most 64 KB, as line 167 asserts; after a header that crossed the end nothing is said about later messages.
- SpscRing.PoppedIsPrefixOfPushed: the producer starts no header that crosses the end, and memory is sequentially consistent; the racy element count is not part of the state.
- SpscRing.WritesMissUnreadBytes: the same.
- HttpCodecs.HTTPCodec.OnMessage: requires that the request is not yet complete; afterwards the connection has lost its parsing state and the source throws.
- Slices.Find: patterns are non-empty and free of NUL; empty patterns and C-string ends are not modelled.
- TcpConnections.TcpConnection.ReadFromPeer: a read that would have blocked is followed up to the unsafe copy and no further; the buffer is smaller than the address space, and only the server's use of the two buffers is modelled.
- The order between buffered and zero-copy bytes, which the source leaves open.
- Timer ids, deadlines and positions are unbounded integers; 64-bit wrap-around is out of reach of the domain above.
- The rings of the timer wheel, its map and its queue are values held in fields; intrusive list nodes and the object pool are not modelled. Masks and shifts by powers of two are written as remainder and quotient.
- `lexical_cast` is a parser of an optional sign and digits below 2^32, where a minus sign negates modulo 2^32. Letter case is ASCII.
- The unlocked push of the loop's own thread is one atomic step, and the wakeup pipe never fills up.
- Client connections in `ConnectionLifetime`, quitting of loops, response encoding, HTTP modules, addresses, pid files, the process bus, the acceptor and the thread pool.
