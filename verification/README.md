# ChityChat server: a verified model

This project models the parts of the ChityChat server that carry its correctness, and proves what they promise, or
exactly when they keep the promise. The model follows the code as it is, including where it departs from what its
comments or names suggest; where a promise does not hold for all inputs, the lemma says for which inputs it does, as an
if-and-only-if, and a second lemma shows a case that fails.

* **Asynchronous database pipeline** (`Pipeline*.dfy`). Answers carry no tag and are matched to queries by position
  alone. `PipelineMachine` is a step machine of one worker; its whole-state invariant ties every context in the ring,
  the current chain and the completed chains to the queries on the wire, `PipelineClients` says over the steps alone
  whose client a context gets and what is sent, and `PipelineOverflow` what becomes of the chains when one does not fit.
  `PipelineWorker` is the code in its own form, a ring over an array and a result loop; each method is proved to take
  steps of the machine.
* **Hash table** (`HashTable*.dfy`). `HashTableSpec` gives the table as chains of entries, `HashTableRefinement` says
  when each operation acts on the finite map the table stands for, `HashTableCost` bounds size, load and the work of
  resizing, `HashTableLoad` says in numbers when it grows and shrinks and which keys a deletion loses, and `HashTable` is
  the implementation, an array of first buckets with linked buckets behind them.
* **WebSocket** (`Bytes`, `WebSocket*`, `StreamParser`). Frames of section 5.2 of RFC 6455 written and read, and a
  stream of frames dispatched from a buffer that is filled read by read, unmasked in place and resized for a cut frame;
  `WebSocketBytes` says byte by byte what is read and written.
* **HTTP** (`CStrings`, `Http*`). Printing, in-place parsing with the C string functions, URL parameters and connection
  options included, the round trip between them, and bodies that arrive in several reads; `HttpFields` takes the parts of
  any message one by one, and `HttpFlags` says what connection options do.
* **Files and references** (`User*`, `File*`). Files on disk against rows in the database across the
  pipeline, and reference counts against the messages and pictures that use a file.
* **Groups and invite codes** (`Chat*`). The SQL statements with their keys and triggers as atomic steps, row by row
  what each does (`ChatStatements`), the transaction that deletes a group, and what holds in every reachable state.

Sockets, the database connection, the disk, JSON and the clock appear as parameters: what a read delivers, what the
database answers, whether a statement or a handler succeeds, what fresh or stale memory holds.

`dafny verify dfyconfig.toml` checks the whole project.

## Where the code departs from what one would expect

* A full ring is recognised by the client of the slot at the write pointer, and the refusal is ignored: once a chain has
  not fitted, some answer reaches no handler in every continuation (`PipelineOverflow.LostForGood`); with 129 events in
  flight it is the last one (`OneEventTooMany`), or the first answer goes to the last query
  (`OneEventTooManyWithoutClient`).
* In the hash table key 0 passes for an empty bucket, deleting a bucket in the middle of a chain loses those behind it,
  and clearing leaves the entries in place (`HashTableRefinement.InsertIff`, `DelIff`, `ClearIff`).
* The server reads one byte of a 64-bit frame length (`WebSocketFrame.WireReadsBack`), and the length 65535 is not sent
  in its shortest form (`WebSocketFrame.ShortestFormIff`).
* A frame that is cut behind another in one read is awaited at the wrong place (`StreamParser.ReadStepIff`,
  `WebSocketStream.CutBehindRepeatsFrame`). A cut inside a header is awaited properly: the size read from stale bytes is
  always larger than what has arrived (`WebSocketStream.FirstIgnores`).
* A request for a URL without a path or with a parameter that has no name, and a connection to be upgraded without an
  Upgrade header, make the HTTP parser follow a null pointer (`HttpRoundTrip.NoPathCrashes`, `NoNameCrashes`,
  `UpgradeAloneCrashes`).
* The body of an HTTP message is split at an empty line, the twentieth header is dropped, and without a last header that
  is not empty the body starts two bytes late (`HttpRoundTrip.PrintedParses`, `ReadsBackIff`).
* A reference count that cannot be read makes a release take away a file that is in use, and one that the connection
  refuses leaves the callback with whatever stands behind its context (`UserFiles.CallbackKeepsStepIff`). A release with a
  media type other than an image would leave the file, but no caller asks for one.
* An attachment that is uploaded again after its message was stored makes two messages share references that were counted
  once (`FileLedger.UploadedAgainLosesFile`).
* Deleting a message that was stored with an attachment that has no hash copies from a null pointer
  (`UserUpload.DeleteAttachments`).
* A code with a limit below -1 works until any code is next used (`ChatDb.UseSweepsAll`).

## Model

| member | source | states |
|---|---|---|
| PipelineRing.EmptyValid | server/src/chat/db.c:6-17 | a zeroed queue is a valid ring that holds no chain |
| PipelineRing.EnqueueIsAppend | server/src/chat/db_pipeline.c:195-206 | parking a chain appends it to the FIFO of chains and keeps the ring valid if and only if a slot is free and the chain starts with a callback |
| PipelineRing.EnqueueWhenFull | server/src/chat/db_pipeline.c:199-200 | on a full ring the chain is refused if and only if the oldest chain has a client; otherwise the oldest chain is overwritten |
| PipelineRing.PeekIsFront | server/src/chat/db_pipeline.c:234-241 | peeking shows the oldest chain, and nothing exactly when the ring is empty |
| PipelineRing.DequeueIsTail | server/src/chat/db_pipeline.c:243-255 | dequeueing removes the oldest chain and leaves the others in order, across the wrap of the read pointer |
| PipelineRing.UpdateFront | server/src/chat/db_pipeline.c:181-181 | settling a context in place touches the oldest chain only |
| PipelineMachine.InitInv | server/src/chat/db.c:6-17 | a fresh worker satisfies the whole-state invariant |
| PipelineMachine.SendKeepsInv | server/src/chat/db_pipeline.c:208-232 | a query sent by an event or a callback keeps the invariant at any time |
| PipelineMachine.DoneKeepsInv | server/src/chat/db_pipeline.c:263-272 | ending an event keeps the invariant, and every context, when its chain fits the ring |
| PipelineMachine.DoneBreaksInv | server/src/chat/db_pipeline.c:263-272 | a chain that does not fit, or has no callback in front, breaks the invariant |
| PipelineMachine.ResultContexts | server/src/chat/db_pipeline.c:172-188 | an answer settles exactly the context of the oldest unanswered query, wherever that leaves its chain |
| PipelineMachine.ResultKeepsInv | server/src/chat/db_pipeline.c:166-193 | handling a result keeps the invariant |
| PipelineMachine.ExecKeepsInv | server/src/chat/db_pipeline.c:143-154 | calling the next callback of a dequeued chain keeps the invariant |
| PipelineMachine.StepKeepsInvIff | server/src/chat/db_pipeline.c:263-272 | every step of a worker keeps the invariant if and only if the chain of an ending event fits a free slot and starts with a callback |
| PipelineMachine.RunKeepsInv | server/src/server_eworker.c:89-118 | the invariant holds along every run of events, results and callbacks whose chains fit |
| PipelineMachine.AnswersReachTheirQueries | server/src/chat/db_pipeline.c:156-193 | in every run, also when callbacks send more queries, the i-th answer reaches the result handler of the i-th query sent, and each context is busy or holds the answer to its own query |
| PipelineMachine.CallbacksRunOnceInOrder | server/src/chat/db_pipeline.c:105-154 | callbacks run once each in chain order, only when all contexts of their chain have answers; chains complete in the order they were parked |
| PipelineMachine.EveryCallbackRuns | server/src/chat/db_pipeline.c:105-154 | between events the callbacks that have run are those of all contexts of completed chains that have one |
| PipelineMachine.ContextsInErrorIff | server/src/chat/db_pipeline.c:59-69 | in every run a context is busy until its answer comes, and then in error if and only if the handler of its query does not accept that answer |
| PipelineClients.ContextsHaveTheirClients | server/src/chat/db_pipeline.c:208-272 | in every run the context of the i-th query sent has the client that its request names, or else that of the last readable socket, or none if a chain that is not empty has been ended since |
| PipelineClients.CallbacksHaveTheirClients | server/src/chat/db_pipeline.c:105-123 | so a callback that reports an error reports it to the client of its own query |
| PipelineClients.RunSays | server/src/chat/db_pipeline.c:25-50 | in every run, over its steps alone, what was sent, what was answered, and how the queries were grouped into chains |
| PipelineMachine.BlocksOnlyWhenNothingIsOwed | server/src/server_eworker.c:37-38 | between events the ring is empty exactly when no query is unanswered, so a worker that blocks misses no answer |
| PipelineOverflow.LostForGood | server/src/chat/db_pipeline.c:195-206 | after a chain that does not fit, in every continuation, fewer handlers have run than queries were sent; so once every query is answered the answers have not reached the handlers of their queries |
| PipelineOverflow.EveryAnswerIsHandledIff | server/src/chat/db_pipeline.c:156-206 | in every run at whose end all queries are answered, every answer has reached a handler if and only if every chain fitted, and then the i-th answer that of the i-th query |
| PipelineOverflow.OneEventTooMany | server/src/chat/db.c:4-4 | of one client's events in flight, one more than the ring has slots, all queries are sent and answered, the first answers reach the handlers of their queries, and the last answer reaches none |
| PipelineOverflow.OneEventTooManyWithoutClient | server/src/chat/db_pipeline.c:199-200 | without a client the last event's chain takes the place of the oldest, and its handler gets the first query's answer |
| PipelineWorker.PipelineQueue.constructor | server/src/chat/db.c:6-17 | the queue starts as the empty ring |
| PipelineWorker.PipelineQueue.Enqueue | server/src/chat/db_pipeline.c:195-206 | the array queue does what the ring does and returns -1 exactly when the slot looks taken |
| PipelineWorker.PipelineQueue.Peek | server/src/chat/db_pipeline.c:234-241 | the array queue shows what the ring shows |
| PipelineWorker.PipelineQueue.Dequeue | server/src/chat/db_pipeline.c:243-255 | the array queue gives up the chain at the read pointer and zeroes its slot |
| PipelineWorker.Worker.constructor | server/src/chat/db.c:6-17 | a worker starts in the initial state of the machine |
| PipelineWorker.Worker.AsyncParams | server/src/chat/db_pipeline.c:25-50 | an accepted query is on the wire and its context at the end of the current chain; a refused one changes nothing |
| PipelineWorker.Worker.CurrentDone | server/src/chat/db_pipeline.c:263-272 | ending an event takes the machine's step, whatever the ring answers, and leaves the worker without a client |
| PipelineWorker.Worker.SendAll | server/src/chat/db_pipeline.c:105-123 | the queries handed in are sent in order, and the steps taken are just these sends and the end of the chain |
| PipelineWorker.Worker.ExecCmd | server/src/chat/db_pipeline.c:105-141 | the context is taken up and the queries of its callback, if it has one, are sent in order, in one chain of their own |
| PipelineWorker.Worker.ExecCmdChain | server/src/chat/db_pipeline.c:143-154 | the callbacks of the chain run in order until none is left, and just the queries they ask for are sent, in order |
| PipelineWorker.Worker.FindTarget | server/src/chat/db_pipeline.c:178-180 | the search loop finds the first busy context, or the last one |
| PipelineWorker.Worker.OneResult | server/src/chat/db_pipeline.c:166-191 | one result consumes that one answer, and the callbacks of the chain that it completes, if any, run in order and send their queries |
| PipelineWorker.Worker.ProcessResults | server/src/chat/db_pipeline.c:156-193 | the result loop consumes the answers among the messages in order; what has been sent after it is what was sent before and the queries of the callbacks of the completed chains; the invariant is kept if its chains fit |
| PipelineWorker.Worker.PrepEvent | server/src/server_eworker.c:21-26 | an event of this client sends its queries in order and ends; the invariant is kept if its chain fits |
| PipelineWorker.KeepsInv | server/src/chat/db_pipeline.c:156-193 | whatever a method does as a run of fitting steps keeps the invariant |
| PipelineWorker.AnswersAppend | server/src/chat/db_pipeline.c:163-171 | the answers among several messages are the answers in each, in order; sync markers are none |
| HashTableSpec.GetIsLookup | server/src/server_ht.c:215-239 | the walk along one chain finds what the map made up of the entries of all chains holds |
| HashTableRefinement.InsertRawIff | server/src/server_ht.c:40-71 | inserting a bucket is inserting into the map, with the right answer and count, if and only if the key is not 0 on an empty array bucket |
| HashTableRefinement.DelRawIff | server/src/server_ht.c:241-272 | removing a bucket is removing from the map if and only if it is the first or last of its chain, and key 0 has a bucket to meet |
| HashTableRefinement.DelRawLoses | server/src/server_ht.c:260-265 | removing a bucket in the middle of a chain loses the last key of the chain |
| HashTableLoad.DeletionLoses | server/src/server_ht.c:257-268 | of a deletion behind the array bucket, the fate of every key: those of the chain from the deleted one on are lost, and no other |
| HashTableLoad.HeadDeletionLoses | server/src/server_ht.c:252-256 | the deletion of the array bucket loses no other key |
| HashTableLoad.CountWraps | server/src/server_ht.c:33-38 | deleting key 0 where its array bucket is empty counts as a hit, and from 0 the count wraps to 2^64 - 1 |
| HashTableLoad.InsertedLast | server/src/server_ht.c:53-70 | a new key stands behind the others of its chain; no other chain changes |
| HashTableRefinement.RehashKeeps | server/src/server_ht.c:97-109 | moving entries into a new array keeps what both held |
| HashTableRefinement.RehashLosesZero | server/src/server_ht.c:101-102 | an entry with key 0 that meets an empty array bucket on the way is lost |
| HashTableRefinement.ResizeIff | server/src/server_ht.c:73-115 | a resize keeps exactly the same pairs, in a sound table, if and only if key 0 is not the first to reach its array bucket |
| HashTableRefinement.CheckLoadIff | server/src/server_ht.c:117-124 | the same for the resize that the load calls for |
| HashTableRefinement.InsertIff | server/src/server_ht.c:200-213 | insertion with its resize acts as insertion into the map if and only if key 0 is mishandled neither by the insertion nor by the resize |
| HashTableRefinement.DelIff | server/src/server_ht.c:126-146 | deletion with its resize acts as deletion from the map if and only if the bucket is first or last of its chain and key 0 is not mishandled |
| HashTableRefinement.ClearIff | server/src/server_ht.c:274-298 | a cleared table is sound if and only if it was empty |
| HashTableLoad.ClearKeepsHeads | server/src/server_ht.c:274-298 | after clearing the first key of each chain is still found, and no other |
| HashTableCost.StepAgrees | server/src/server_ht.c:200-272 | one safe operation answers and changes what the map would, and leaves a good table |
| HashTableCost.AgreesWithMap | server/src/server_ht.c:200-272 | along every safe run of inserts, lookups and deletes the table holds and answers what a finite map would |
| HashTableCost.EntriesCounted | server/src/server_ht.c:26-38 | a sound table has as many entries in its chains as it counts |
| HashTableCost.StepBalanced | server/src/server_ht.c:73-124 | one safe operation keeps the size a minimum times a power of two and the load within its bounds |
| HashTableCost.StaysBalanced | server/src/server_ht.c:73-124 | along every safe run the size is the minimum times a power of two, the load at most 0.7, and, above a minimum of 2 or more, at least 0.2 |
| HashTableLoad.LoadAlongRuns | server/src/server_ht.c:7-8 | from an empty table on, along every safe run, ten times the count is at most seven times the size, and above the minimum size at least twice the size |
| HashTableLoad.InsertDoublesIff | server/src/server_ht.c:117-124 | an accepted insertion doubles the size if and only if ten times the new count exceeds seven times the size; a nearly empty table shrinks |
| HashTableLoad.DeleteHalvesIff | server/src/server_ht.c:117-124 | a deletion that hits halves the size, down to the minimum, if and only if ten times the new count is below twice the size |
| HashTableLoad.OtherwiseSameSize | server/src/server_ht.c:84-85 | a table that may not be resized keeps its size, and a refused operation changes nothing |
| HashTableLoad.CostSays | server/src/server_ht.c:97-109 | an operation moves every entry there is afterwards if the size changes, and none otherwise |
| HashTableLoad.RunSnoc | server/src/server_ht.c:200-272 | one more operation at the end of a run, and its answer |
| HashTableLoad.SafeIff | server/src/server_ht.c:241-272 | every lookup is safe, an insertion is for every key but 0, a deletion if besides no bucket between first and last has the key |
| HashTableCost.StepAmortised | server/src/server_ht.c:73-115 | the entries one operation moves are paid for by the drop of a potential and three for the operation |
| HashTableCost.ResizesCostThreePerUpdate | server/src/server_ht.c:73-124 | from an empty table of any minimum size all resizes of a run move at most three entries for each insert or delete |
| HashTableCost.TwoInsertsReachFour | server/src/server_ht.c:117-124 | with a minimum size of 1 two inserts lead to four slots |
| HashTableCost.LowerBoundNeedsMinTwo | server/src/server_ht.c:117-124 | from there two deletes lead to an empty table of two slots, below the lower bound of the load |
| HashTable.LinkNew | server/src/server_ht.c:55-68 | a new heap bucket behind the last one extends the chain by its entry |
| HashTable.DelBucket | server/src/server_ht.c:126-143 | a bucket takes over key, data and link of its successor, which is freed; without one it is freed or zeroed |
| HashTable.DelHead | server/src/server_ht.c:252-256 | deleting the array bucket leaves the rest of the chain in place |
| HashTable.CutAndDel | server/src/server_ht.c:260-265 | deleting a later bucket leaves the chain before it, and nothing of what was behind |
| HashTable.ServerGht.Init | server/src/server_ht.c:148-177 | a table of a size other than 0 starts valid and empty |
| HashTable.ServerGht.Scan | server/src/server_ht.c:55-62 | following the links finds the key if the chain has it, else the last bucket |
| HashTable.ServerGht.InsertRaw | server/src/server_ht.c:40-71 | insertion over array and links is insertion into the chains, on acyclic chains without shared buckets |
| HashTable.ServerGht.Get | server/src/server_ht.c:215-239 | lookup over array and links is lookup in the chains |
| HashTable.ServerGht.DelRaw | server/src/server_ht.c:241-272 | deletion over array and links is deletion from the chains, and no new bucket is reachable |
| HashTable.ServerGht.Reinsert | server/src/server_ht.c:99-108 | moving an old chain inserts its entries in order, frees its heap buckets and no other, and leaves the new table apart from the old buckets |
| HashTable.ServerGht.Resize | server/src/server_ht.c:73-115 | resizing over array and links is resizing the chains; the heap buckets of the old chains are freed, and nothing else is, exactly when there is a new array |
| HashTable.ServerGht.CheckLoad | server/src/server_ht.c:117-124 | the load check over array and links is that of the chains, and frees the old heap buckets if it resizes |
| HashTable.ServerGht.Insert | server/src/server_ht.c:200-213 | insertion with its resize is that of the chains; null data is refused |
| HashTable.ServerGht.Del | server/src/server_ht.c:241-272 | deletion with its resize is that of the chains |
| HashTable.ServerGht.Clear | server/src/server_ht.c:274-298 | clearing frees every heap bucket and still leaves links to them: the table is valid afterwards if and only if no chain had one |
| HashTable.ReplayIsRehash | server/src/server_ht.c:97-109 | the bucket-by-bucket move is the rehash of the chain's entries |
| Bytes.MaskedTwice | server/src/server_util.c:126-131 | masking twice with the same key gives back the bytes |
| Bytes.Mask | server/src/server_util.c:126-131 | the loop masks one stretch of a buffer byte by byte, with the key over and over, and leaves the rest |
| Bytes.SwpCpy | server/src/server_util.c:119-124 | the copy is the reversal of its source |
| Bytes.NetworkRoundTrip | server/src/server_util.c:119-124 | a number written by reversing its memory image reads back in network order, if it fits |
| Bytes.CombineBuffers | server/src/server_util.c:152-173 | the joined buffer is the concatenation of the pieces |
| WebSocketFrame.WriteLength | server/src/server_websocket.c:146-165 | the length field and the reversed length bytes that are sent |
| WebSocketFrame.SendAdv | server/src/server_websocket.c:129-196 | the bytes sent are the frame of the payload, and the caller's buffer is left masked if there is a key |
| WebSocketFrame.WireReadsBack | server/src/server_websocket.c:39-94 | a written frame with any opcode, payload and key reads back under the standard, and at the server if and only if the payload is shorter than 65535 bytes |
| WebSocketFrame.ServerLengthIff | server/include/server_websocket.h:27-27 | the server and section 5.2 of RFC 6455 read the same header if and only if it does not announce eight length bytes other than zero |
| WebSocketFrame.ShortestFormIff | server/src/server_websocket.c:149-152 | the shortest length form of section 5.2 of RFC 6455 is used for every length but 65535 |
| WebSocketBytes.FirstIff | server/src/server_websocket.c:39-83 | a frame is all there if and only if its header and the payload it announces are, in the bytes of the stream |
| WebSocketBytes.FirstSays | server/src/server_websocket.c:39-94 | opcode, length and payload of the first frame from the bytes of the stream, the payload byte by byte under the key in front of it |
| WebSocketBytes.UnmaskedSays | server/src/server_websocket.c:85-92 | unmasking a frame where it lies changes its payload to what is dispatched, and no other byte |
| WebSocketBytes.HeadSays | server/src/server_websocket.c:136-144 | the first two bytes of a written frame: final, reserved bits clear, opcode, mask bit, length field |
| WebSocketBytes.LengthSays | server/src/server_websocket.c:149-168 | a longer length is written in two or eight bytes, most significant first |
| WebSocketBytes.PayloadSays | server/src/server_websocket.c:170-186 | the key in front of the payload, and the payload byte by byte under it |
| WebSocketBytes.MaskedLetter | server/src/server_util.c:126-131 | the masked frame 81 81 01 02 03 04 60 is the text `a` |
| WebSocketBytes.HelloIsWritten | server/src/server_websocket.c:129-196 | the frames for `Hello` in section 5.7 of RFC 6455 are written byte for byte |
| WebSocketBytes.HelloIsRead | server/src/server_websocket.c:28-94 | and read |
| StreamParser.ParseAppend | server/src/server_websocket.c:61-70 | parsing a stream piece by piece, each piece behind the leftover of the last, is parsing it at once |
| StreamParser.RunOverParses | server/src/server_websocket.c:28-127 | one run over the buffer dispatches the items of its bytes in order and leaves the buffer with just these bytes rewritten, each item for itself |
| StreamParser.ReadStepIff | server/src/server_events.c:87-132 | a read dispatches the items that waiting and received bytes make up, and leaves exactly the leftover at the front of the buffer if and only if these bytes, with the items in them rewritten, start with the leftover |
| StreamParser.NotCutBehind | server/src/server_events.c:87-132 | which is so unless an item is cut behind others |
| StreamParser.CleanReadsParse | server/src/server_events.c:71-138 | reads that cut no item behind others dispatch what parsing all bytes at once gives, up to the item that ends the connection |
| StreamParser.CutsDoNotMatter | server/src/server_events.c:71-138 | two ways of cutting the same bytes into such reads dispatch the same |
| WebSocketStream.FirstIgnores | server/src/server_websocket.c:16-59 | neither stale memory nor later bytes change a frame that is all there, and stale memory never makes a cut frame look complete, wherever it is cut |
| WebSocketStream.ReaderIsStable | server/src/server_websocket.c:28-94 | a frame that is all there takes received bytes only and is not changed by what follows, and unmasking keeps its size |
| WebSocketStream.ReadsDispatchStream | server/src/server_events.c:87-132 | the frames dispatched are those of the whole stream, each payload unmasked once, up to a close frame or a refused text |
| WebSocketStream.StreamReadsBack | server/src/server_websocket.c:96-126 | the frames of a stream of written frames are the frames that were written |
| WebSocketStream.SentFramesAreDispatched | server/src/server_websocket.c:28-127 | whatever frames shorter than 65535 bytes a client sends, masked or not, the server dispatches them in order, however clean reads cut the bytes |
| WebSocketBytes.ClosedIff | server/src/server_websocket.c:96-126 | however the bytes come, a connection is closed if and only if the last frame dispatched has opcode 8, or is a text that is refused; none before it is either |
| WebSocketBytes.HandledUpToClose | server/src/server_websocket.c:96-126 | of the frames a client sends those up to the first that closes are handled, as they are |
| WebSocketStream.CutBehindRepeatsFrame | server/src/server_websocket.c:71-86 | a ping and a pong cut after the first byte of the pong are dispatched as two pings |
| WebSocketClient.FirstExact | server/src/server_websocket.c:59-86 | a whole frame takes at least two bytes and is read the same from exactly its own bytes, so every recursive call gets on |
| WebSocketClient.Client.ReadHeader | server/src/server_websocket.c:39-57 | the branches over mask bit and length field give the header of the bytes, stale ones included |
| WebSocketClient.Client.Realloc | server/src/server_websocket.c:79-80 | the buffer has the new size and keeps its bytes as far as they fit |
| WebSocketClient.Client.Unmask | server/src/server_websocket.c:88-97 | the payload is unmasked where it lies, byte by byte with the key in the buffer, and nothing else changes |
| WebSocketClient.Client.TakeFrame | server/src/server_websocket.c:28-97 | a whole frame is taken and its bytes rewritten; a cut one leaves a buffer of the size that its header announces, stale bytes included |
| WebSocketClient.Client.WsParse | server/src/server_websocket.c:28-127 | the recursive parser handles exactly the frames of a run over the buffer, and leaves offset, busy flag and buffer as that run says |
| WebSocketClient.Client.ReadClient | server/src/server_events.c:71-138 | one read of the client, with its page of 4096 bytes, offset and busy flag, is the connection's step, a buffer for a cut frame has the size that its header announces, and an empty read closes |
| CStrings.StrStr | server/src/server_util.c:39-39 | the search loops find the first occurrence in the string, or none |
| CStrings.FindIs | server/src/server_util.c:39-39 | the first place where the delimiter stands is what the search finds |
| CStrings.StrSplit | server/src/server_util.c:23-54 | splitting in place zeroes the delimiter and moves on behind it; without one memory and place stay |
| CStrings.SplitBytes | server/src/server_util.c:23-54 | just the bytes of the delimiter are zeroed, and the place to go on from is behind them |
| CStrings.AfterSplitReads | server/src/server_util.c:23-54 | after a split the token and the rest read as strings in memory; the last token is also what the next call sees |
| CStrings.StrTok | server/src/server_http.c:201-257 | taking a token ends it with one NUL and moves behind it |
| CStrings.TokenBytes | server/src/server_http.c:201-257 | just the byte behind the token is zeroed |
| HttpFields.TokenSays | server/src/server_http.c:201-257 | the first token is what stands between leading delimiters and the next one |
| CStrings.AfterTokenReads | server/src/server_http.c:201-257 | after that the token and what is behind it read as strings in memory |
| HttpMessage.NumbersReadBack | server/src/server_http.c:108-124 | a printed decimal number reads back as 64-bit length and as 16-bit status code, if it fits |
| HttpFields.NumbersAreStored | server/src/server_http.c:108-124 | any number behind white space and a sign: as a length at most 2^64 - 1, below zero counted down from 2^64; as a status code its low 16 bits |
| HttpFields.ValueSays | server/src/server_http.c:108-124 | the value of digits in the decimal system |
| HttpFields.NoLeadingZero | server/src/server_http.c:27-30 | a number is printed without leading zeros |
| HttpRoundTrip.PrintedBlock | server/src/server_http.c:32-47 | the printed header block: one line for each header that is not empty, and an extra line end if the last is empty |
| HttpFields.PrintedMessage | server/src/server_http.c:6-55 | a message with two headers is printed byte for byte, an empty last header included |
| HttpFields.PrintedStart | server/src/server_http.c:27-30 | and its start line |
| HttpRoundTrip.BlockEnds | server/src/server_http.c:183-183 | the first empty line of a printed message is the one behind its headers |
| HttpRoundTrip.HeaderReads | server/src/server_http.c:247-260 | a printed header line reads back as its header |
| HttpFields.HeaderSays | server/src/server_http.c:247-260 | any header line: the name between leading delimiters and the next one, cut to 64 characters, the value behind it without one blank, cut to 256 |
| HttpFields.NoHeader | server/src/server_http.c:248-254 | a line without a name, or with nothing behind it, is no header |
| HttpRoundTrip.NameAlone | server/src/server_http.c:252-254 | the last line, seen again cut behind its name, ends the header loop |
| HttpFields.NextLine | server/src/server_http.c:241-269 | lines are read one by one up to the first that is no header; the twentieth header is dropped |
| HttpFields.LastLine | server/src/server_http.c:241-269 | the last line is read once although it is seen again |
| HttpRoundTrip.BlockParses | server/src/server_http.c:239-269 | header lines read back as their headers, up to nineteen |
| HttpRoundTrip.StartReads | server/src/server_http.c:199-237 | what comes back from a printed start line: the status code, the method, and the URL taken apart into path and parameters |
| HttpFields.StartSays | server/src/server_http.c:199-237 | any start line of three parts: with `HTTP/` in the first a response, else a request, every part cut to its width |
| HttpFields.StartOfOne | server/src/server_http.c:201-237 | a start line of one part |
| HttpFields.StartRefusedIff | server/src/server_http.c:201-219 | a start line is refused if and only if it has blanks only |
| HttpRoundTrip.UrlReadsBackIff | server/src/server_http.c:137-168 | a URL is its own path, without parameters, if and only if it has no question mark |
| HttpRoundTrip.UrlReads | server/src/server_http.c:137-168 | of a path and parameters put together as a URL the path comes back, with the first ten parameters |
| HttpFields.PathIsCut | server/src/server_http.c:145-167 | a path of any length is cut to 256 characters |
| HttpFields.ParamIsCut | server/src/server_http.c:157-160 | name and value of a parameter of any length are cut to 64 and 256 |
| HttpRoundTrip.PrintedParses | server/src/server_http.c:170-299 | exactly what comes back from any message within the grammar and the field widths: start line with its URL taken apart, first nineteen headers that are not empty, bytes behind the first empty line; or a null pointer that is followed |
| HttpRoundTrip.BodyReadsBackIff | server/src/server_http.c:191-197 | the body comes back if and only if its length was announced and it is not split |
| HttpFields.BodySays | server/src/server_http.c:191-197 | a body byte by byte: as received, but for four NULs where an empty line first stands in front of any NUL, and as much of it as is announced |
| HttpFields.NoBodySays | server/src/server_http.c:284-296 | without a byte of it there is no body, unless one is announced |
| HttpRoundTrip.HeadersReadBackIff | server/src/server_http.c:259-272 | the headers come back if and only if there are at most nineteen, none is empty and no list of connection options has more than one |
| HttpRoundTrip.ReadsBackIff | server/src/server_http.c:6-55 | a message comes back as printed if and only if it has one to nineteen headers, none empty, no cut option list, the right length, a body that is not split, no question mark in the URL of a request, and an upgrade that is named if it is asked for |
| HttpRoundTrip.ParametersAreTakenOff | server/src/server_http.c:145-167 | a request for `/a?b=c` comes back with the path `/a` and the parameter `b` |
| HttpRoundTrip.NoPathCrashes | server/src/server_http.c:145-167 | a request for `?` makes the parser copy from a null pointer |
| HttpRoundTrip.NoNameCrashes | server/src/server_http.c:157-160 | so does a parameter without a name |
| HttpRoundTrip.UpgradeAloneCrashes | server/src/server_http.c:274-282 | so does a connection to be upgraded without an Upgrade header |
| HttpServer.Message.constructor | server/src/server_http.c:443-459 | a new response has the server's header and, with a body, its decimal length |
| HttpServer.Message.Add | server/src/server_http.c:356-388 | setting a header overwrites the first of that name or an empty one, else is appended while there is room |
| HttpFields.HeaderIsSet | server/src/server_http.c:356-388 | a header is set in the first place that has its name or is empty, else behind the others, unless there are twenty |
| HttpFields.HeadersInTurn | server/src/server_http.c:393-396 | headers are added to a response one after the other |
| HttpFields.NewResponseSays | server/src/server_http.c:443-459 | version, code, message and headers of a new response |
| HttpServer.Message.ToStr | server/src/server_http.c:6-55 | the loop over the headers prints the message |
| HttpServer.NextToken | server/src/server_http.c:201-230 | a token is copied and ended in place, and nothing outside the string is written |
| HttpServer.TakeHeader | server/src/server_http.c:243-262 | one line is split off and its header read; the next call sees the rest, or the last line cut behind its name |
| HttpServer.ParseHeaderLines | server/src/server_http.c:239-269 | the header loop, in place, reads the headers of the block and writes inside the block only |
| HttpServer.SplitParam | server/src/server_http.c:153-160 | a parameter is split in place into name and value, and nothing outside it is written |
| HttpServer.ParseParams | server/src/server_http.c:147-165 | the parameter loop, in place, reads the first ten parameters and writes nothing outside the string; a parameter without a name ends it with a null pointer |
| HttpServer.ParseUrl | server/src/server_http.c:137-168 | the URL is taken apart in place into path and parameters, and nothing outside it is written; without a path there is a null pointer |
| HttpServer.ParseStartLine | server/src/server_http.c:199-237 | the three parts of the start line are read in place, the URL of a request taken apart, and the line stays cut behind the first |
| HttpServer.ParseBlockInPlace | server/src/server_http.c:199-269 | the header block, its URL taken apart, is parsed in place without touching the bytes behind it |
| HttpServer.SetConnection | server/src/server_http.c:57-80 | the loop over the connection options sets and clears the flags of the client in their order, and leaves the value cut behind the first option |
| HttpFlags.OptionsSay | server/src/server_http.c:57-80 | for all flags and option lists: kept if and only if `keep-alive` has come with no `close` behind it, or it was kept and no `close` has come; an upgrade in the same way; still a WebSocket if and only if no `close` has come |
| HttpFlags.ListReads | server/src/server_http.c:64-79 | a list of options is taken apart into these options |
| HttpFlags.HeadersOptions | server/src/server_http.c:126-135 | several headers named Connection are as one with all their options |
| HttpFlags.FirstNamed | server/src/server_http.c:342-354 | the header found is the first of its name, and none is found only if there is none |
| HttpFlags.OptionsArrive | server/src/server_http.c:57-80 | the flags of the connection after any printed message with one Connection header, in terms of the options in it and the first upgrade named; a null pointer if and only if an upgrade is asked for and none is named |
| HttpFlags.HandshakeIsKept | server/src/server_http.c:274-282 | a handshake with `Connection: Upgrade, keep-alive` leaves upgrade, WebSocket and keep-alive set |
| HttpFields.OptionsAreCut | server/src/server_http.c:64-65 | of a list of options only the first is left in its header; no other header changes |
| HttpServer.HandleHeaders | server/src/server_http.c:126-135 | the last announced length and the last handshake key count, the flags of the client are those after all connection options, and only the values of these are cut |
| HttpFields.LastCounts | server/src/server_http.c:126-135 | the last Content-Length and the last Sec-WebSocket-Key count |
| HttpFields.NoneCounts | server/src/server_http.c:126-135 | without one no length is announced, and there is no key |
| HttpServer.HandleUpgrade | server/src/server_http.c:274-282 | an upgrade that is asked for is noted as a WebSocket if the first Upgrade header says so; without that header there is a null pointer |
| HttpServer.TakeBody | server/src/server_http.c:284-296 | the body is nothing, whole, or waits for the rest |
| HttpServer.ParseHttp | server/src/server_http.c:170-299 | the in-place parser yields the message in the buffer, with parameters, handshake key and client flags, refuses it, or follows a null pointer |
| HttpServer.AddKeepsBuilt | server/src/server_http.c:356-388 | adding a clean header keeps the response clean and its announced length true |
| HttpServer.NewIsBuilt | server/src/server_http.c:429-459 | a new response is clean and announces the length of its body |
| HttpServer.ResponsesReadBackIff | server/src/server_http.c:443-459 | every response the server builds comes back if and only if it has fewer than twenty headers, a body that is not split, and an Upgrade header if its options ask for an upgrade |
| HttpServer.TwentiethIsLost | server/src/server_http.c:264-268 | of twenty headers the first nineteen come back, unless the one that is lost names the upgrade |
| HttpServer.EmptyLineInBodyIsZeroed | server/src/server_http.c:191-191 | an empty line inside a body is overwritten with NULs |
| HttpConnection.HttpClient.HandleHttp | server/src/server_http.c:538-561 | a whole message goes to the upgrade if one is asked for, which is then no longer pending, else to its handler |
| HttpConnection.HttpClient.ReadMessage | server/src/server_events.c:117-125 | the first read parses a fresh page and closes, handles or waits as the connection's step says |
| HttpConnection.HttpClient.ReadBody | server/src/server_events.c:87-116 | more of a body goes behind what is there; the message is handled when it is complete |
| HttpConnection.HttpClient.ReadClient | server/src/server_events.c:71-138 | one read is the connection's step, and an empty read closes |
| HttpConnection.FirstReadIs | server/src/server_events.c:94-123 | a first read is parsed in a zeroed page of 4096 bytes of which the last stays free |
| HttpConnection.FirstReadSays | server/src/server_http.c:538-582 | a refused message and one whose handler refuses it close the connection; any other leaves it waiting for a body, upgraded, or waiting for the next message |
| HttpConnection.NextReadSays | server/src/server_events.c:87-116 | a later read adds to the body, and when that has the announced length the message is handled and the connection stays |
| HttpConnection.RunIsReads | server/src/server_events.c:71-138 | a connection is read chunk by chunk as long as it is open |
| HttpConnection.UpgradesAreAnswered | server/src/server_http.c:410-427 | whenever a connection waits for its next message no upgrade is pending |
| HttpConnection.BodyCollected | server/src/server_events.c:87-116 | however the rest of a body is cut into reads, the received bytes never exceed the announced length and the message is handled once, when they are equal, with the pieces in order |
| HttpConnection.PrefixWaits | server/src/server_http.c:284-296 | a body that is cut waits for the rest, with its bytes so far intact if and only if they are not split |
| HttpConnection.ArrivesIff | server/src/server_events.c:87-116 | any message within the grammar whose body takes several reads is handled once and intact if and only if all of it is read as above and the part of the body that came with the headers is not split |
| HttpConnection.ArrivesAtOnceIff | server/src/server_events.c:117-125 | any message within the grammar that comes with one read is handled once and intact if and only if all of it is read as above and its body is not split |
| UserFiles.ExecuteKeepsCounted | server/sql/schema.sql:95-107 | inserting, incrementing and decrementing leave no row with a count below one |
| FileSteps.StatementCounts | server/sql/insert_userfiles.sql:1-8 | an insert adds one to the count of its file, a release takes one away and the row with the last; no other count changes |
| UserFiles.CallbackKeepsStepIff | server/src/chat/user_file.c:133-269 | whatever stands behind the context of a save or a release, its own count, another query's context or nothing, after its callback files and rows agree again if and only if a new file was written, a used one left, and one whose row went unlinked |
| UserFiles.PairKeepsStepIff | server/src/chat/user_file.c:133-162 | after a save's or a release's callback files and rows agree again if and only if the count could be read where it mattered and a file whose row went was released as an image |
| UserFiles.StepKeepsStepIff | server/src/chat/user_file.c:133-287 | every step of a worker, also with half a pair sent, keeps the pipeline's invariant and the truth of the answers, and the files in step if and only if it is no callback that fails to |
| UserFiles.FilesInStepIff | server/src/chat/user_file.c:133-287 | in every run, also one in which the connection refuses counts or the database cannot read them, the files are in step with the rows throughout if and only if every callback keeps step |
| UserFiles.StepKeepsInv | server/src/chat/user_file.c:133-287 | saves and releases whose counts are asked for and can be read keep files and rows in step |
| UserFiles.FilesFollowRows | server/src/chat/user_file.c:133-287 | in every run whose counts are asked for and can be read the files on disk are those of the table after the completed chains, and once nothing is pending those of the table as it is |
| UserFiles.FailedCountRemovesUsedFile | server/src/chat/user_file.c:245-262 | a count that cannot be read after a release takes away a file that is still in use |
| UserFiles.RefusedCountLosesFile | server/src/chat/user_file.c:140-147 | a new file is not written if the connection refused its count and nothing else stands behind it |
| UserFilesServer.FileServer.SaveFileImg | server/src/chat/user_file.c:164-204 | saving sends insert and count as one pair, only the first of it if the connection refuses the second, and nothing for data that is no image |
| UserFilesServer.FileServer.DeleteFile | server/src/chat/user_file.c:271-287 | releasing sends decrement and count as one pair, only the first of it if the connection refuses the second |
| UserFilesServer.FileServer.DoSaveFileImg | server/src/chat/user_file.c:133-162 | the callback's effect on the disk, and when it reports an error |
| UserFilesServer.FileServer.DoDeleteFile | server/src/chat/user_file.c:233-269 | the callback's effect on the disk |
| FileSteps.SaveSends | server/src/chat/user_file.c:164-204 | what a save sends: an insert with a callback and, if the connection takes it, the count without one |
| FileSteps.ReleaseSends | server/src/chat/user_file.c:271-287 | what a release sends |
| FileSteps.WorkerRunSnoc | server/src/server_eworker.c:89-118 | one more step at the end of a run of a worker |
| FileLedger.FilesCounted | server/src/chat/group.c:64-84 | the files released with a message are its attachments, each as often as it is attached |
| FileSteps.FilesInOrder | server/src/chat/group.c:64-84 | the files of a message are released in the order of its attachments |
| FileSteps.Attached | server/src/chat/user_upload.c:178-247 | an upload is noted in its place, and the message stored with all its attachments if as many have come as it has |
| FileSteps.AttachedLeaks | server/src/chat/user_upload.c:178-247 | what an upload leaves without anyone to release it |
| FileSteps.Expired | server/src/chat/upload_token.c:70-101 | what a dropped token leaks |
| FileSteps.MessageGone | server/src/chat/group.c:43-87 | a message that goes leaves the others, and its files are to be released |
| FileSteps.PictureUploaded | server/src/chat/user_upload.c:109-157 | a new picture is shown and held; one that the database does not take is leaked |
| FileSteps.PictureReplaced | server/src/chat/user_upload.c:57-79 | the callback of an update releases the oldest picture held |
| FileSteps.LoggedIn | server/src/chat/db.c:336-343 | a login forgets the picture held |
| FileSteps.LostIsKept | server/src/chat/user_upload.c:57-79 | a picture forgotten at a login is never removed, whoever still shows it |
| FileSteps.Released | server/sql/schema.sql:95-107 | a release takes one off the count, unless the database refuses it |
| FileSteps.LedgerRunSnoc | server/src/chat/user_upload.c:178-247 | one more step at the end of a run of the ledger |
| FileLedger.StepConservesIff | server/src/chat/user_upload.c:178-247 | a step keeps every count equal to the number of references if and only if the client gives no hashes, no failed insert leaves a reference, and no stored message is stored again with other attachments |
| FileLedger.NeverBlocked | server/sql/schema.sql:20-21 | while references are conserved the foreign key of users' pictures refuses no release that is owed |
| FileLedger.UsedFilesAreKept | server/src/chat/user_upload.c:57-79 | in every such run the count of a file is at least the stored messages and pictures that use it, so the row of a file that a stored message has attached or a user shows is never removed |
| FileLedger.UploadedAgainLosesFile | server/src/chat/user_upload.c:219-229 | a run in which an attachment is uploaded twice and a stored message loses a file |
| FilesInUse.LedgerRows | server/sql/schema.sql:95-107 | the table of a run of the ledger is that of the statements it sends |
| FilesInUse.UsedFilesAreOnDisk | server/src/chat/user_file.c:133-287 | in every run that counts what it refers to, once a worker has dealt with its statements, every file that a stored message or a picture uses is on disk |
| UserUpload.UploadToken.Attach | server/src/chat/user_upload.c:178-247 | an upload does to its token and to the stored messages what the ledger's step says; an index out of range does nothing |
| UserUpload.ChatUser.PictureUpdated | server/src/chat/user_upload.c:57-79 | the picture in memory is released and replaced, unless the update failed |
| UserUpload.DeleteAttachments | server/src/chat/group.c:43-87 | the loop releases the files of the attachments in order, up to the first without a hash, which is a null pointer |
| ChatDb.DeletionsIff | server/sql/schema.sql:34-65 | members can be deleted if and only if their messages are gone, and a group if and only if it is empty |
| ChatDb.GroupIsDeleted | server/src/chat/db_group.c:641-696 | the transaction breaks no foreign key at any statement, removes exactly the group with its members, messages and codes, and returns the attachments and members from before |
| ChatStatements.DeletionRows | server/src/chat/db_group.c:641-696 | row by row, what the deletion of a group leaves: every row that is not the group's, as it is |
| ChatStatements.DeletionAnswers | server/src/chat/db_group.c:644-673 | the replies to it: the attachments of its messages that have any, and its members |
| ChatStatements.AllOrNothing | server/src/chat/db_group.c:641-696 | a transaction answers every statement; after one that fails all fail, and no table changes |
| ChatDb.MembersFirstIff | server/src/chat/db_group.c:675-681 | with members deleted before messages the transaction works if and only if the group has no messages, and is undone otherwise |
| ChatDb.StatementInv | server/sql/schema.sql:24-93 | every statement a client can cause keeps the invariant of the tables |
| ChatDb.ActionKeepsInv | server/src/chat/group.c:811-836 | so does the deletion of a group by its owner |
| ChatDb.OwnersAndAuthorsAreMembers | server/sql/schema.sql:81-93 | in every reachable state the keys hold, owners are members of their groups and authors members of their messages' groups |
| ChatDb.CodesAdmitAtMost | server/sql/insert_groupmember_code.sql:8-38 | in every reachable state a code for n uses has let in at most n members, a code that is there counts exactly those it let in, and every other member of a private group than its owner came with a code of that group |
| ChatDb.UseSweepsAll | server/sql/schema.sql:67-79 | in every reachable state a use of a code deletes another one, of whatever group, if and only if that one's limit is neither -1 nor positive |
| ChatDb.JoinsIff | server/sql/join_pub_group.sql:1-4 | a user gets in if and only if the group is public, or the code is one of that group |
| ChatDb.MessagesIff | server/sql/delete_msg.sql:7-12 | a message is stored exactly for members, and deleted exactly for its author or the group's owner |
| ChatStatements.MessageIsDeleted | server/sql/delete_msg.sql:7-12 | exactly the message asked for goes, for its author or the group's owner, every other row stays as it is, and the reply has its group and attachments if it goes, else nothing |
| ChatStatements.MessageStaysIff | server/sql/delete_msg.sql:7-12 | in every run a message stays, as it is, if and only if neither its author nor the owner of its group deletes it, and that owner does not delete the group |
| ChatStatements.NewMessage | server/sql/insert_msg.sql:1-8 | the row a message adds, and when; no other row changes |
| ChatStatements.NewGroup | server/sql/insert_group.sql:1-7 | the rows a group adds: public if and only if asked for, its owner its only member |
| ChatStatements.NewPublicMember | server/sql/join_pub_group.sql:1-4 | the row a join adds, and when it is an error, and when not |
| ChatStatements.NewMemberByCode | server/sql/insert_groupmember_code.sql:8-38 | the row a code lets in, and when |
| ChatStatements.UsedCodes | server/sql/schema.sql:67-79 | what a use does to every code: counted for its own, and those used up are gone |
| ChatStatements.NewCode | server/sql/create_group_code.sql:7-11 | the row a code adds, unused and with the limit asked for, and when |
| ChatStatements.CodeIsDeleted | server/sql/delete_group_code.sql:5-9 | a code goes for any member of its group, and no other row |
| ChatStatements.NewUser | server/sql/insert_user.sql:1-8 | the row a user adds |
| ChatStatements.ActionsIff | server/src/chat/group.c:567-581 | what a client asks for is done, but a code for no uses is made for one, and a group deleted for its owner only |
| ChatStatements.RunStep | server/src/chat/group.c:567-581 | a run does its actions one after the other |
| ChatDatabase.Database.InsertGroup | server/sql/insert_group.sql:1-7 | the row and the member added by the trigger, or nothing for an unknown owner |
| ChatDatabase.Database.JoinPublic | server/sql/join_pub_group.sql:1-4 | the tables and the reply are those of the statement |
| ChatDatabase.Database.DeleteGroupcodeIfOverMax | server/sql/schema.sql:67-79 | the loop deletes exactly the codes that are used up |
| ChatDatabase.Database.JoinByCode | server/sql/insert_groupmember_code.sql:8-38 | member, use and sweep together are the statement, and a refusal changes nothing |
| ChatDatabase.Database.CreateCode | server/sql/create_group_code.sql:7-11 | the tables and the reply are those of the statement |
| ChatDatabase.Database.InsertMsg | server/sql/insert_msg.sql:1-8 | the tables and the reply are those of the statement; outsiders are refused by the foreign key |
| ChatDatabase.Database.DeleteMsg | server/sql/delete_msg.sql:7-12 | the tables and the reply, with group and attachments, are those of the statement |
| ChatDatabase.Database.DeleteGroup | server/src/chat/db_group.c:641-696 | the four deletions in order are the committed transaction, with keys whole after each |

## Left out

- PipelineMachine.AnswersReachTheirQueries: runs in which a chain is parked without a free slot or without a callback in front are excluded; `PipelineOverflow.EveryAnswerIsHandledIff` says that just those lose answers.
- HashTableCost.AgreesWithMap: runs that use key 0, delete from the middle of a chain or clear the table are excluded; `HashTableRefinement.InsertIff`, `DelIff` and `ClearIff` say that just those go wrong.
- WebSocketStream.ReadsDispatchStream: reads that cut a frame behind another are excluded, because they are misread; `StreamParser.ReadStepIff` gives the exact condition read by read.
- HttpRoundTrip.PrintedParses: names of 64 characters and values of 256 or more, which fill their fields without a terminating NUL, are excluded, as are characters outside the grammar of RFC 9112.
- HttpFields.HeaderSays: a name of 64 characters or a value of 256 fills its field without a terminating NUL; what is read behind it when the field is used as a string is not modelled.
- HttpServer.ParseHttp: a message that starts with an empty line yields no message here; the code goes on with the string tokenised before.
- UserFiles.FilesFollowRows: reads and writes of the disk are taken to succeed; counts that are refused or cannot be read are excluded here, and `UserFiles.FilesInStepIff` says what they do. The number that another query's handler stores is taken to be the first value of its answer.
- FileLedger.UsedFilesAreKept: the run has to count what it refers to; `FileLedger.StepConservesIff` says exactly which steps do not.
- WebSocketClient.Client.WsParse: whether a text is accepted depends on the payload alone here; the JSON tokener is also given the byte behind it.
- FilesInUse.UsedFilesAreOnDisk: one worker sends all statements; a message that was stored with an attachment without a hash is deleted without a crash.
- Contexts of a chain are a sequence; the pointers between them, and the memory they take, are not modelled.
- The hash table's load is compared exactly; the rounding of the 32-bit quotient is not modelled, nor are the free callback, the mutex and the string hash.
- Statements and result handlers are reduced to what they do to the tables and to the verdict they store; the text of SQL, JSON and logs is not modelled.
- Several workers on one database, and statements that interleave with those of other connections.
- Lifetimes of clients, sessions, tokens and timers across disconnects.
- Continuation frames of section 5.4 of RFC 6455, which the server only logs, and the pongs it sends back.
- The digest of the WebSocket handshake key, sessions, authentication, the content types of static files, configuration and the browser client.
- Insertion of users and their names beyond the key; descriptions, dates and the order of rows that a query returns.
- ChatStatements.MessageStaysIff: the numbers of messages come from a sequence, so no run stores a second message under the same number.
- Users' pictures are never read back at login, because the row conversion asks for a ninth column; the model keeps that, and does not model the rest of the row.
