# A verified model of the course repository's stateful components

Five programs of the repository are modelled and proved correct in Dafny:

- **the intrusive hash table** `lecture/test3/src/uthash.h`: chains and application order as real
  linked structures, bucket expansion with its statistics, deletion, replacement, ordered
  insertion, rollback of a failed add, and the in-place bottom-up merge sort
  (`Bits`, `Bytes`, `Seqs`, `StableSort`, `UtHash`, `HashTable`, `HashRuns`, `KeyOrder`, `JenHash`, `JenWords`);
- **the allocator's free list** `lecture/test2/alloc.c`: the restarting in-place coalescing loop, the
  three fit searches, and alloc and dealloc once blocks are being reused (`FreeRanges`, `Allocator`);
- **the chat service** `lecture/test4`: server I/O thread, broadcast worker and all the clients as one
  step system with explicit locks, program counters and a wait set (`ChatProtocol`, `ChatInvariants`,
  `ChatVotes`, `ChatTheorems`, `ChatProgress`), both framing loops as buffer code, and the two put
  together (`Framing`, `ServerFraming`, `ManyClients`, `ClientFraming`, `ChatWire`);
- **the map-reduce engine** `lecture/test3/src/interface.c`, under a demonic scheduler
  (`Workers`, `Groups`, `StoreSteps`, `Mapping`, `MapReduce`);
- **word counting**, sequentially on the hash table (`lab/lab8.c`) and as a map-reduce job
  (`lecture/test3/src/map_and_reduce.c`): the second refines the first (`WordCount`).

`dafny verify dfyconfig.toml` checks the whole project.

## How to read the model

*Hash table.* An `Item` is an application structure with its handle; `HashTable` has the fields of
`UT_hash_table` plus two ghost sequences, the application order and the chains, which `Valid()`
ties to the links, the counts and the bucket placement. The hash function and the comparator are
parameters. Allocation outcomes are parameters too (the nonfatal-OOM build); a bucket array of 2^32
or more buckets is never granted, since its size no longer fits. 32-bit counters are modelled by
the bound of fewer than 2^32 elements, and the expansion threshold is computed modulo 2^32; the
sort's `_hs_insize` is doubled modulo 2^32 and proved to stay below the length of the list for as
long as the loop goes on. The mixing step is modelled twice: on numbers (`JenHash`), where it is
proved a bijection, and on 32-bit words with the source's operators (`JenWords`), which the first
is proved to describe; `JenWords.Value` is the number a word stands for.

*Allocator.* A block is known by its header's address; `size` and `next` are maps from addresses to
the header fields, and a free block of size n at address a is the byte range [a, a+n), which is what
the adjacency test of `coalesce_unsorted` compares. Pointer and size arithmetic is 64-bit. `Valid()`
says that the allocated and the free blocks are disjoint, cover the arena [lo, hi) exactly, leave no
two adjacent free blocks and have room for their headers.

*Chat.* A step is one access to shared state; in particular the worker's test of the flag and its
entry into the wait set are two steps. Memory is sequentially consistent, writes succeed and
are atomic, and clients do not disconnect before the commit (client.c does not). `log` records every
message ever enqueued; `joinPoint`, `voted`, `counted`, `cast` and `castAtFall` are history that no
step reads. What a client sends are hex lines of 20 characters, as its sender makes them. An
`Accept` puts a client into the list at any time there is room. No fairness of the scheduler is
assumed: what the service is sure to do is stated as bounds on the steps a thread takes, and as
what alone can keep a thread from taking one.

*Framing.* A read returns a piece of the stream of any size. `Feed` is the specification of reading
in one go; the methods work on the byte buffers of the source.

*Map-reduce.* A thread's step is what it does between two points at which another may run: taking
the mutex, finding or creating, storing, releasing it. The loop picks any thread that can run
(`:|`), so a postcondition holds for every schedule. The final table is the verified `HashTable`.
`MrExec` starts from any final table, because the source does not clear it after a call; the
statement about an empty one is the special case.

Where code and comments disagree, the model follows the code:

- `lecture/test4/server.c:278-279` says that the worker exits after processing the commit message. It
  need not process it: the worker tests `server_running` before each dequeue (line 154).
  `ChatTheorems.CommitCanBeLost` gives such a run, and `ChatTheorems.CommitDelivered` says exactly when
  the commit is broadcast.
- `lecture/test2/alloc.c:225-262` writes a header into the remainder of a split block even when the
  remainder is smaller than a header. `Allocator.ShortRemainder` is such a request, and
  `Allocator.Heap.Alloc` keeps the heap valid if and only if, before the call, the block that the
  search will choose leaves at least 16 bytes.
- `lecture/test4/server.c:107-110` handles an empty queue after the wait as the way `dequeue_message`
  reports shutdown. In no run is that branch taken (`ChatTheorems.NoLostWakeup`).

## Model

| member | source | states |
|---|---|---|
| Bits.MaskIsMod | lecture/test3/src/uthash.h:430-433 | masking with a power of two minus one is the remainder, for every hash value |
| Bits.ShiftAndMaskIsCeil | lecture/test3/src/uthash.h:824-831 | shifting and masking computes the ceiling of n over 2^k |
| Bits.DoublingSplits | lecture/test3/src/uthash.h:848-849 | modulo twice the bucket count a hash lands at its old index or that index plus the old count |
| StableSort.MergeStablySorts | lecture/test3/src/uthash.h:905-957 | merging two stably sorted runs stably sorts their concatenation, for every total preorder |
| StableSort.PassDoublesRuns | lecture/test3/src/uthash.h:901-970 | one pass turns sorted runs of length n into sorted runs of length 2n |
| StableSort.PassMultiset | lecture/test3/src/uthash.h:901-970 | a pass permutes the list, whatever the comparator |
| StableSort.StablySortsUnique | lecture/test3/src/uthash.h:886-890 | a list has only one stable sorted permutation |
| UtHash.PushFront | lecture/test3/src/uthash.h:767-776 | an element is spliced in at the head of its chain, count and back links included; every other chain is as before |
| UtHash.DelInBkt | lecture/test3/src/uthash.h:789-801 | unlinking from a chain, for an element of the chain and for one the expansion has detached |
| UtHash.BktOfIsRemainder | lecture/test3/src/uthash.h:430-433 | HASH_TO_BKT is the hash value modulo the bucket count, for every power of two |
| UtHash.PlacedAtRemainders | lecture/test3/src/uthash.h:430-433 | in a valid table each element is on the chain numbered by that remainder, and on no other |
| UtHash.UnlinkApp | lecture/test3/src/uthash.h:459-469 | an element leaves the application order and its neighbours are joined |
| UtHash.MoveItem | lecture/test3/src/uthash.h:849-865 | one element moves to the head of its new chain and the statistics stay exact |
| UtHash.MoveChain | lecture/test3/src/uthash.h:845-867 | an old chain is moved element by element, each to the bucket of its hash value among the new ones |
| UtHash.Redistribute | lecture/test3/src/uthash.h:844-868 | all elements end in rebuilt chains, each on the chain numbered by its hash value modulo the new bucket count and on no other; old bucket b goes, reversed, to b and b+B only; nonideal_items and every expand_mult are exact |
| UtHash.MultStep | lecture/test3/src/uthash.h:850-855 | the incremental rule for expand_mult computes min(c - ideal, ceil(c / ideal)) for count c above ideal, and 0 otherwise |
| UtHash.NonidealUpdate | lecture/test3/src/uthash.h:850-851 | counting arrivals above the ideal is summing max(0, count - ideal) over the buckets |
| UtHash.MergeOne | lecture/test3/src/uthash.h:919-957 | one turn of the merge loop emits the right element and relinks next and prev |
| UtHash.MergeRuns | lecture/test3/src/uthash.h:906-959 | two adjacent runs are merged in place onto the list built so far |
| UtHash.SortPass | lecture/test3/src/uthash.h:901-970 | a pass of the sort leaves the linked list holding exactly the functional pass, with prev, next, head and tail repaired and the number of merges right |
| HashTables.HashTable.ExpandBuckets | lecture/test3/src/uthash.h:833-883 | a refused allocation changes nothing; a granted one doubles the table, keeps the elements, splits b into b and b+B, and leaves ideal_chain_maxlen, nonidealItems, ineff_expands and noexpand exact; either way each element is on the chain numbered by its hash value modulo the bucket count |
| HashTables.IdealIsCeil | lecture/test3/src/uthash.h:846-848 | ideal_chain_maxlen is the ceiling of items over new buckets |
| HashTables.HashTable.WantsExpandAt | lecture/test3/src/uthash.h:777-778 | an expansion is due exactly when the table is not frozen and the count of the bucket numbered hash mod num_buckets comes to 10 * (expand_mult + 1), in unsigned arithmetic |
| HashTables.HashTable.AddToBkt | lecture/test3/src/uthash.h:767-786 | the element enters its chain, and the table doubles exactly when it is not frozen and the count has come to 10 * (expand_mult + 1) |
| HashTables.HashTable.RollbackBkt | lecture/test3/src/uthash.h:138-146 | the count is restored and the element detached |
| HashTables.HashTable.UndoAdd | lecture/test3/src/uthash.h:320-325 | rollback and deletion take a half-added element out again, leaving order and chains as before |
| HashTables.HashTable.Add | lecture/test3/src/uthash.h:396-422 | the element goes to the end of the order, with any expansion accounted for; a failed add leaves head, tail, num_items, buckets, both orders and every link as they were |
| HashTables.HashTable.AddInOrder | lecture/test3/src/uthash.h:350-388 | the same for ordered insertion, at the place the comparator determines |
| HashTables.HashTable.FindPlace | lecture/test3/src/uthash.h:286-293 | the inner loop stops at the first element above the new one |
| HashTables.HashTable.Find | lecture/test3/src/uthash.h:153-173 | the element with the key if there is one, null exactly if there is none |
| HashTables.HashTable.Delete | lecture/test3/src/uthash.h:450-477 | exactly that element leaves both structures; deleting the last one drops the table |
| HashTables.HashTable.Replace | lecture/test3/src/uthash.h:254-269 | the element of the same key, if any, is returned and gone, and the new one is at the end; it may be that very element |
| HashTables.HashTable.SortStep | lecture/test3/src/uthash.h:900-970 | one turn of the outer loop: another pass, run length doubled, or the sort is complete |
| HashTables.HashTable.Sort | lecture/test3/src/uthash.h:890-972 | the order becomes its stable sorted permutation, links, head and tail included, for every length and total preorder; whatever the comparator, it is a permutation and the table stays valid |
| HashTables.HashTable.LinksFixed | lecture/test3/src/uthash.h:516-563 | in a valid table every link is determined by the two orders |
| HashTables.UniqueInserted | lecture/test3/src/uthash.h:350-381 | inserting a fresh key anywhere keeps keys unique |
| HashRuns.Fsck | lecture/test3/src/uthash.h:516-563 | none of its complaints is ever raised for a valid table |
| HashRuns.ChainsCount | lecture/test3/src/uthash.h:520-541 | the bucket counts add up to the number of elements |
| HashRuns.DeleteAll | lab/lab8.c:162-168 | deleting while iterating empties the table |
| HashRuns.Perform | lecture/test3/src/uthash.h:480-507 | each operation as its clients use it does its step on the application order |
| HashRuns.Run | lecture/test3/src/uthash.h:153-972 | any run of adds, replaces, deletes and sorts, with any allocation outcomes and with elements that come, go and come again, goes through valid tables, each step as specified |
| HashRuns.StepOnMap | lecture/test3/src/uthash.h:153-173 | each operation on the order is the map operation on the index by key |
| HashRuns.RunOnMap | lecture/test3/src/uthash.h:153-972 | a whole run of the table is the same run of a finite map; keys stay unique |
| HashRuns.InOrderIsStable | lecture/test3/src/uthash.h:286-293 | inserting in order into a sorted list is the stable sort of the list with the element appended |
| JenHash.LineInverse | lecture/test3/src/uthash.h:634-645 | a mixing line is undone by its inverse, both ways |
| JenHash.XorIsBitwise | lecture/test3/src/uthash.h:634-645 | bit i of the exclusive or is the sum of the two bits i modulo 2, for every i |
| JenHash.JenMixBijective | lecture/test3/src/uthash.h:634-645 | HASH_JEN_MIX is a bijection on triples of 32-bit words |
| JenWords.XorValue | lecture/test3/src/uthash.h:634-645 | ^ on 32-bit words is the exclusive or of their values |
| JenWords.SubValue | lecture/test3/src/uthash.h:634-645 | - on 32-bit words is subtraction modulo 2^32 of their values |
| JenWords.ValueCounts | lecture/test3/src/uthash.h:634-645 | the value of a word is 0 at 0 and counts up with the word, modulo 2^32 |
| JenWords.ValueOnto | lecture/test3/src/uthash.h:634-645 | every number below 2^32 is the value of a word, so that statements about values are about all words |
| JenWords.MixLine | lecture/test3/src/uthash.h:636-644 | two subtractions and an exclusive or on words do to the values what a line of the mixing step does to numbers |
| JenWords.HashJenMix | lecture/test3/src/uthash.h:634-645 | the nine lines on 32-bit words, with the source's shifts and distances, compute on values what JenMix computes on numbers |
| FreeRanges.MergeKeepsCover | lecture/test2/alloc.c:32-63 | merging two blocks, one ending where the other starts, keeps the set of bytes covered |
| FreeRanges.CanonicalIsMaximal | lecture/test2/alloc.c:18-76 | disjoint ranges no two of which are adjacent are the maximal runs of their bytes |
| FreeRanges.RunsUnique | lecture/test2/alloc.c:18-76 | a set of bytes has one set of maximal runs |
| FreeRanges.CoalescingKeepsPartition | lecture/test2/alloc.c:18-76 | coalescing keeps allocated and free blocks disjoint and covering the arena |
| FreeRanges.SplitKeepsPartition | lecture/test2/alloc.c:248-258 | cutting a block in two, each with room for a header, keeps the partition |
| FreeRanges.SplitKeepsApart | lecture/test2/alloc.c:248-258 | the cut makes no two free blocks adjacent |
| Allocator.EndsAtExact | lecture/test2/alloc.c:32-33 | the pointer test in 64-bit arithmetic is exact inside the address space |
| Allocator.TotalMerge | lecture/test2/alloc.c:37-62 | a merge conserves the total of the size fields |
| Allocator.Heap.TestPair | lecture/test2/alloc.c:30-64 | both merge branches: the list loses one block, the other takes over its bytes |
| Allocator.Heap.MergeOnce | lecture/test2/alloc.c:22-74 | one restart of the scan merges one pair, or shows that no pair is adjacent and changes nothing |
| Allocator.Heap.Coalesce | lecture/test2/alloc.c:18-76 | it terminates, conserves total size and bytes covered, leaves no two blocks adjacent; for disjoint positive ranges the result is the unique set of maximal runs, whatever the order |
| Allocator.Heap.FindFirstFit | lecture/test2/alloc.c:92-100 | the first block that is large enough, or NULL |
| Allocator.Heap.FindBestFit | lecture/test2/alloc.c:110-121 | the first of the smallest blocks that are large enough and below UINT64_MAX, or NULL |
| Allocator.Heap.FindWorstFit | lecture/test2/alloc.c:122-133 | the first of the largest non-empty blocks that are large enough, or NULL |
| Allocator.Heap.GetNext | lecture/test2/alloc.c:101-109 | the successor of a listed block, NULL for an unlisted one |
| Allocator.Heap.GetLast | lecture/test2/alloc.c:78-90 | the predecessor of a listed block, NULL for the first and for an unlisted one |
| Allocator.Heap.Alloc | lecture/test2/alloc.c:225-262 | the chosen block is cut and its rest takes its place in the list; the heap stays valid if and only if, before the call, the block the search chooses leaves room for a header |
| Allocator.ShortRemainder | lecture/test2/alloc.c:248-258 | a request that leaves 8 bytes breaks the heap |
| Allocator.Heap.Dealloc | lecture/test2/alloc.c:265-275 | the block's bytes, and no others, become free; the free list becomes their maximal runs; allocated blocks are untouched |
| Allocator.Heap.RunClient | lecture/test2/alloc.c:225-275 | over any run of alloc and dealloc that keeps to the 16-byte condition, from any valid heap with blocks in use, every operation does its step: a request takes the front of the block its search chooses and hands out its pointer, or is declined because the search finds none with room; a release makes exactly that block's bytes free again; allocated and free blocks partition the same arena throughout, and the allocated ones are those the client holds |
| Allocator.ChosenUnique | lecture/test2/alloc.c:92-133 | each fit search has only one outcome |
| Allocator.Heap.AllocThenDealloc | lecture/test2/alloc.c:225-275 | dealloc right after alloc restores the previous set of free ranges, whenever the chosen block leaves room for a header |
| Allocator.Heap.FreeAll | lecture/test2/alloc.c:265-275 | freeing blocks in any order, coalescing after each, ends with the maximal runs of all the free bytes: the order does not matter |
| ChatInvariants.LockStep | lecture/test4/server.c:404-411 | every step keeps each lock with the thread whose position holds it, and the flag with the I/O thread's position |
| ChatInvariants.QueueStep | lecture/test4/server.c:72-120 | every step keeps the log equal to what was broadcast, what is in the worker's hand and the queue; the worker sleeps on a non-empty queue only before the signal is sent, and after the flag has fallen it neither sleeps nor is about to |
| ChatInvariants.AwakeAtFall | lecture/test4/server.c:266-282 | when the flag is about to fall the worker is neither asleep nor about to be |
| ChatInvariants.FallStep | lecture/test4/server.c:151-187 | after the fall at most one more broadcast is completed, and how many is settled at the fall |
| ChatInvariants.OrderStep | lecture/test4/server.c:165-181 | every step keeps what each client was sent equal to its stretch of the log |
| ChatInvariants.OrderJoin | lecture/test4/server.c:435-449 | a client that joins starts at the next message to be broadcast |
| ChatVotes.AllVotesIn | lecture/test4/server.c:262-266 | the count reaches the number of clients exactly when all have voted |
| ChatVotes.VoteStep | lecture/test4/server.c:198-308 | every step keeps the log, each client's script, what is on the way and the votes in agreement |
| ChatVotes.StoppedHasVoted | lecture/test4/client.c:187-196 | a client whose keep_running has fallen has voted, and the vote is complete |
| ChatVotes.SenderKeeps | lecture/test4/client.c:49-103 | a step of the sender thread sends its script in order and then its vote |
| ChatTheorems.InvReachable | lecture/test4/server.c:397-499 | every state of every run satisfies all the invariants |
| ChatTheorems.RunGrows | lecture/test4/server.c:72-94 | the log and what each client has been sent only grow |
| ChatTheorems.WrittenIsLogStretch | lecture/test4/server.c:151-187 | what a client has been sent is a contiguous stretch of the log from its join point on |
| ChatTheorems.TotalOrder | lecture/test4/server.c:151-187 | any two clients, at any two moments, agree on every position both have been sent |
| ChatTheorems.CommitTheorem | lecture/test4/server.c:252-285 | a commit is enqueued once, as the last message, after every client has sent all its lines and voted, and the log before it interleaves the complete scripts |
| ChatTheorems.LogFollowsScripts | lecture/test4/client.c:55-89 | at any time each client's lines are in the log in script order without gaps |
| ChatTheorems.NoEarlyFall | lecture/test4/client.c:187-196 | keep_running falls only after the commit was logged and everybody has voted |
| ChatTheorems.NoLostWakeup | lecture/test4/server.c:99-120 | after the flag has fallen the worker is neither asleep nor between its test of the flag and its sleep, dequeue_message does not return NULL, and at most one more message is broadcast |
| ChatTheorems.ShutdownStep | lecture/test4/server.c:276-321 | after the last vote every server step uses up rank, and only a spurious wakeup adds to it |
| ChatTheorems.ShutdownBound | lecture/test4/server.c:151-187 | after the last vote the server threads take a bounded number of steps in every interleaving |
| ChatTheorems.ShutdownProgress | lecture/test4/server.c:310-321 | they are stuck only when both have exited |
| ChatTheorems.ShutdownEnds | lecture/test4/server.c:310-342 | a run that can go no further has ended with the worker gone and the join returned |
| ChatTheorems.CommitDelivered | lecture/test4/server.c:151-187 | the commit reaches the connected clients, all of them, if and only if at the fall it was the only message outstanding and the worker was past its loop test |
| ChatTheorems.CommitCanBeLost | lecture/test4/server.c:154 | a run in which the voting client is never sent the commit |
| ChatProgress.WorkerStays | lecture/test4/server.c:154 | in no run has the worker left its loop while the server runs |
| ChatProgress.WorkDown | lecture/test4/server.c:151-187 | with message p in the log and not yet broadcast, every step of the worker lowers a bound on the steps its broadcast still takes |
| ChatProgress.BroadcastBound | lecture/test4/server.c:151-187 | in every run, while the server runs, a message in the log is a bounded number of worker steps from being broadcast, whatever the other threads do |
| ChatProgress.BroadcastReaches | lecture/test4/server.c:170-178 | once the worker has taken that many steps, every connected client that joined in time has been sent the message |
| ChatProgress.WorkerWaitsForIo | lecture/test4/server.c:96-120 | with a message to broadcast the worker can be held up only by a lock of the I/O thread, or asleep with its signal the I/O thread's next step |
| ChatProgress.AsleepIsCaughtUp | lecture/test4/server.c:99-101 | while the worker sleeps with no signal pending, every connected client has been sent the whole log from its join point on |
| ChatProgress.IoDown | lecture/test4/server.c:397-499 | every step of the I/O thread brings it closer to waiting for input or to its end |
| ChatProgress.NeverStuck | lecture/test4/server.c:72-187 | in no run do the two threads deadlock: until both are gone one can take a step or the I/O thread waits for input |
| ChatProgress.JoinsIfRoom | lecture/test4/server.c:435-449 | a client that connects is taken in exactly if fewer than 100 are connected, and is due every broadcast from then on |
| ChatProgress.ConnectedStay | lecture/test4/server.c:435-449 | in every run whoever has joined stays connected, with the same join point |
| ChatProgress.SenderDown | lecture/test4/client.c:49-103 | nothing holds up a sender thread before it is done, and each of its steps brings its end closer |
| ChatProgress.AllHeardIsFinal | lecture/test4/server.c:262-284 | in every run, once every sender is done and everything sent has been handled, the commit has been announced |
| Framing.FeedInTwo | lecture/test4/server.c:464-486 | reading a stream in two pieces is reading it in one |
| Framing.ChunksDoNotMatter | lecture/test4/server.c:464-486 | however a stream is cut, the messages handled and the partial message kept are the same |
| Framing.FeedMessages | lecture/test4/server.c:480-486 | a concatenation of messages is handled message by message |
| Framing.RoomForNextRead | lecture/test4/server.c:464-466 | after any part of a stream of messages of at most 1024 bytes, less than 1024 bytes are kept and the first messages have been handled |
| Framing.MemChr | lecture/test4/server.c:207-210 | the first newline of the buffer, or none |
| Framing.MoveToFront | lecture/test4/server.c:298-300 | the remaining bytes arrive at the front unharmed, although source and target overlap |
| ServerFraming.NextLineStable | lecture/test4/server.c:206-212 | a complete line stays the same line whatever follows |
| ServerFraming.Connection.Relay | lecture/test4/server.c:229-249 | the broadcast is type, address, port, payload and newline |
| ServerFraming.Connection.HandleMessage | lecture/test4/server.c:198-308 | the result codes, the effect of the first line on the queue, the count and the flag, and the rest moved to the front |
| ServerFraming.Connection.OnReadable | lecture/test4/server.c:464-495 | a read followed by the loop handles all complete lines of old and new data and keeps the rest |
| ManyClients.Serve | lecture/test4/server.c:464-486 | a client's stream alone, in reads of any size: every read has room, and in the end exactly its messages have been handled |
| ManyClients.ServeAll | lecture/test4/server.c:458-498 | the streams of several clients, in reads of any size and interleaved in any order: every read has room, and the shared state is that of handling an interleaving of their messages, of each its first ones in order, and all once its stream has arrived |
| ManyClients.HandleMore | lecture/test4/server.c:480-486 | the messages one read completes are handled as the next stretch of that interleaving |
| ClientFraming.NextMessageStable | lecture/test4/client.c:139-209 | a complete message stays the same message whatever follows |
| ClientFraming.Receiver.HandleAt | lecture/test4/client.c:139-209 | each of the three branches logs, stops or discards as specified, or waits for more data |
| ClientFraming.Receiver.OnReadable | lecture/test4/client.c:119-220 | a read followed by the inner loop and the memmove handles all complete messages and keeps the rest |
| ClientFraming.Drain | lecture/test4/client.c:119-220 | a stream received in reads of any size: every read has room, and exactly its messages are handled |
| ClientFraming.Convert | lecture/test4/client.c:34-45 | -1 exactly for bad arguments, and nothing written then; otherwise the hex text and its terminator |
| ClientFraming.HexInjective | lecture/test4/client.c:40-41 | different bytes have different texts |
| ClientFraming.HexDigitsOf | lecture/test4/client.c:40-41 | every byte is written as its two digits from 0-9 and A-F, the high one first |
| ClientFraming.HexIsText | lecture/test4/client.c:40-41 | the text has digits and capitals only, so no newline |
| ClientFraming.BuildMessage | lecture/test4/client.c:55-79 | the message sent is type 0, the hex text and a newline |
| ChatWire.UpIsMessage | lecture/test4/client.c:76-79 | what a client sends is one complete message for the server |
| ChatWire.HandleIsTake | lecture/test4/server.c:198-308 | on the bytes of a client's next message the server does what the step system says |
| ChatWire.DownIsMessage | lecture/test4/server.c:237-246 | what the server broadcasts is one complete message for the client |
| ChatWire.RoundTrip | lecture/test4/client.c:143-180 | a broadcast decodes to its address, port and payload, even if address or port contain the newline byte |
| ChatWire.DecodeWhatWasWritten | lecture/test4/client.c:119-220 | however the bytes written to a client are cut, and however many have arrived, its receiver has logged exactly the first of the messages, in order, and stopped exactly if the commit was among them |
| ChatWire.LogFits | lecture/test4/client.c:55-79 | in every run, everything enqueued is free of newlines and fits a message |
| ChatWire.ReceivedIsBroadcast | lecture/test4/client.c:119-220 | in every run each client's receiver logs exactly what was broadcast to it, with the senders' addresses, whatever part has arrived and however it was cut |
| Bytes.StrCmpIsEquality | lecture/test3/src/interface.c:142-144 | strcmp is 0 for equal strings only |
| Bytes.StrCmpIsLexicographic | lecture/test3/src/interface.c:142-144 | the result is negative exactly if, at the first place where the two strings part, the first has ended or has the smaller byte |
| KeyOrder.KeysAreOrdered | lecture/test3/src/interface.c:142-144 | final_kv_cmp, like sort_func, is a total preorder on the elements |
| KeyOrder.SortedAscends | lab/lab8.c:150-152 | elements sorted by it, no key occurring twice, ascend strictly |
| Bytes.StrCmpChains | lecture/test3/src/interface.c:142-144 | strcmp is transitive |
| Workers.StepOk | lecture/test3/src/interface.c:77-88 | every step of every thread keeps mutual exclusion |
| Workers.SomeoneCanStep | lecture/test3/src/interface.c:77-105 | there is no deadlock |
| Workers.StepsRunOut | lecture/test3/src/interface.c:126-140 | every step of every thread brings the join nearer |
| Workers.PendingAfterStep | lecture/test3/src/interface.c:126-140 | a step takes one item off what is pending exactly when it stores it |
| Workers.EachJobOnce | lecture/test3/src/interface.c:159-171 | for every count of threads the ranges cover every job exactly once, in order |
| Workers.RoundedUp | lecture/test3/src/interface.c:159-162 | the chunk size is the least with which the threads cover all the jobs |
| Groups.GroupInTurnGroups | lecture/test3/src/interface.c:61-88 | emitting pairs one after the other groups them: one group a key, no group empty, no pair lost |
| Groups.SameGroup | lecture/test3/src/interface.c:61-88 | two groupings of the same pairs have the same groups but for the order of the values |
| Groups.ReduceAgrees | lecture/test3/src/interface.c:134-140 | an order-insensitive reducer emits the same pairs for any two groupings of the same pairs |
| Groups.OutputsAgree | lecture/test3/src/interface.c:199-218 | ascending outputs with the same pairs are equal but for the order of the values under a key |
| StoreSteps.FindStep | lecture/test3/src/interface.c:79-81 | finding or creating a group in the critical section keeps the invariant of the store |
| StoreSteps.StoreStep | lecture/test3/src/interface.c:84-85 | so does storing the value |
| StoreSteps.OtherStep | lecture/test3/src/interface.c:126-132 | so does every step outside the critical section |
| StoreSteps.Room | lecture/test3/src/interface.c:66-85 | within the engine's limits there is room for every group and every value at the moment it is needed |
| StoreSteps.StoreEnd | lecture/test3/src/interface.c:173-174 | after the join the groups hold exactly what was emitted |
| Mapping.Intermediate.FindOrCreate | lecture/test3/src/interface.c:61-72 | the group of the key, created at the end if missing, or NULL exactly if it is missing and 1024 groups exist |
| Mapping.Intermediate.EmitI | lecture/test3/src/interface.c:77-88 | one more pair is grouped, or -1 and nothing changed when the store is full |
| Mapping.MapStep | lecture/test3/src/interface.c:77-132 | a step of any mapper that can run keeps the invariant |
| Mapping.MapPhase | lecture/test3/src/interface.c:153-174 | for every schedule and thread count the mappers end and leave a grouping of all that map emits |
| MapReduce.FindOrAddEntry | lecture/test3/src/interface.c:91-100 | the entry of the key, added to the table at the end of its order if missing |
| MapReduce.ReduceStep | lecture/test3/src/interface.c:90-140 | a step of any reducer that can run keeps the invariant |
| MapReduce.ReducePhase | lecture/test3/src/interface.c:176-193 | for every schedule and thread count the table ends up with what it held and all that reduce emits |
| MapReduce.WriteOutput | lecture/test3/src/interface.c:199-218 | the output is the table's content with keys strictly ascending, no pair lost or invented |
| MapReduce.MrExec | lecture/test3/src/interface.c:149-225 | for all inputs, thread counts and schedules the output ascends and holds the table's earlier pairs and exactly the pairs a sequential group-then-reduce emits |
| MapReduce.MrExecTwice | lecture/test3/src/interface.c:149-225 | two executions on the same input, each from an empty final table and with its own thread counts and schedule, agree on keys, their order and the values under each; either fails only when its table has run out of buckets |
| WordCount.WordCountUnique | lab/lab8.c:98-108 | there is one list of ascending words with their numbers of occurrences |
| WordCount.AddWordCountsInChunk | lab/lab8.c:29-49 | the map counts the words of the chunk on top of what it counted before |
| WordCount.RunLab8 | lab/lab8.c:115-141 | count, sort, list and delete: the listing is the word count and the table ends empty |
| WordCount.CountWordsSeq | lab/lab8.c:101-131 | count_words_seq and HASH_SORT yield the word count |
| WordCount.RunAmrReduce | lecture/test3/src/map_and_reduce.c:289-299 | the loop emits the decimal number of the values that are "1" |
| WordCount.AmrReduceInsensitive | lecture/test3/src/map_and_reduce.c:289-299 | amr_reduce does not depend on the order of the values |
| WordCount.CountWordsMapReduce | lecture/test3/src/map_and_reduce.c:287-299 | the engine with amr_map and amr_reduce outputs the word count, for every thread count and schedule |
| WordCount.DecimalIsPositional | lecture/test3/src/map_and_reduce.c:296-298 | %zu: the text has only digits, digit i from the end is n / 10^i modulo 10, none is missing, and none leads with 0 but the text of 0 itself |
| WordCount.DecimalInjective | lecture/test3/src/map_and_reduce.c:296-298 | different counts have different texts |
| WordCount.OutputDetermines | lecture/test3/src/map_and_reduce.c:289-299 | equal outputs come from equal word counts |
| WordCount.BothWays | lecture/test3/src/map_and_reduce.c:287-299 | the parallel output is the sequential count: same words, same counts, same order |

## Left out

- Bytes under a header: when a split leaves a remainder below 16 bytes the new header overlaps the next block; the model stops at "the heap is then no longer valid".
- Allocator growth: alloc before the first dealloc, resetalloc, allocopt, allocinfo and all of alloc2.c.
- Bucket array: the table's bucket array is a sequence field that the methods reassign, so that freeing the old array and the sharing of bucket pointers are not captured; the intermediate value buffers are likewise values inside an array.
- UtHash.MoveItem: does not model 32-bit wrap-around of expand_mult * ideal_chain_maxlen, which takes a single bucket of nearly 2^32 elements.
- Disconnects: remove_client and the select-error exit of the server; the per-slot buffers do not follow a moved client, and the error exit leaves server_running at 1.
- Sockets, select, getpeername failures, failing writes, printing, log formatting (inet_ntop, ntohs, the cut of a logged text at a NUL byte), pthread_create and malloc failures other than uthash's.
- Chat step system: messages travel whole, and one message is handled per step; the cut into reads is the subject of the framing modules. The client list is given as client numbers in slots.
- lecture/test4/servertest.c: a variant of the server whose cleanup joins threads while holding the lock they need.
- count_words_parallel in lab/lab8.c: the lock taken at line 36 is never released.
- HASH_SELECT, HASH_REPLACE_INORDER, HASH_CLEAR, bloom filters, the alternative hash functions, and the key loop around HASH_JEN_MIX; the hash function is a parameter.
- ChatTheorems.ShutdownEnds: does not claim that the commit is delivered, because it is not always; see ChatTheorems.CommitDelivered.
- MapReduce.MrExec: requires the engine's limits (1024 keys, 256 values a key, strings below 16 bytes) and positive thread counts, because the source overruns its buffers or divides by zero outside them.
- Shells, the other labs and the remaining demos.
