# A Dafny model of the sensor gateway and its building blocks

This project models, in Dafny, the four stateful parts of the repository and
proves what they keep over every run:

- **the sensor gateway** (`final/`): a connection manager writes readings into a
  shared buffer, a data manager and a storage manager each read all of them, and
  all threads meet at a barrier before the buffer is freed;
- **the shared buffer**: one queue whose nodes carry an "already read" flag for
  every reader, so that the readers behave as independent cursors;
- **the doubly linked pointer list** that the connection and data managers use;
- **the pool allocator** of `lab_4/`, whose chunk chain is implicit in the headers.

Code that changes things in place is imperative Dafny here too (classes, arrays,
loops), each method proved equal to a function on values; the hard properties are
proved about those functions and about runs of them.

| file | what it holds |
|---|---|
| `Chunks.dfy`, `Allocator.dfy` | allocator: chains as values, and headers rewritten in an array |
| `ListSpec.dfy`, `PointerList.dfy` | pointer list: sequence operations, and heap nodes refining them |
| `Compaction.dfy` | compaction of the poll array |
| `PollRound.dfy`, `Sources.dfy` | what a poll round does to array and list; which connection each slot is read from |
| `Clients.dfy`, `Polling.dfy` | what the connections say and what of it is passed on, in a round and over a run |
| `ConnMgr.dfy`, `FailingRounds.dfy` | the connection manager in place; runs that reach the rounds that fail |
| `BufferSpec.dfy`, `LinkedBuffer.dfy` | shared buffer: flags as cursors, and the linked queue |
| `Protocol.dfy`, `Shutdown.dfy`, `CriticalSections.dfy` | threads as a state machine, the end of a run, critical sections in place |
| `Storage.dfy` | storage thread: consumer loop and reconnections |
| `Windows.dfy`, `DataMgr.dfy` | data manager: sliding windows as values and in place |
| `EndToEnd.dfy` | what the consumers end with, in terms of what was read from the clients and what they said |
| `Wrappers.dfy`, `Readings.dfy` | option type, the reading that travels through the gateway |

The environment is a parameter everywhere: what `poll()` reports and a client
sends, the lines of the map file, whether the database accepts a statement, the
order in which threads get the mutex. The number of readers, the window length,
the pool size and the number of connection tries are parameters as well.

## Results worth knowing

- The allocator forgets its history: the chain is determined by the live handles
  alone (`HistoryIndependence`). Freeing everything in any order therefore restores
  the initial pool, and a request freed at once leaves no trace. No operation writes
  a unit of an allocation that stays live (`Untouched`).
- A reader's consumed readings followed by its unread ones are the whole history in
  every interleaving; after the flag is raised a run has an exactly known number of
  steps left, and every run in which nothing aborts can be carried on to the freed
  buffer.
- Nodes are reached through accessors that need the node to be live, and nothing is
  known of a node after it was released: no list or buffer operation uses a node
  that was freed, or frees one twice.
- `compress` returns exactly when there are descriptors enough to fill the new
  front; each pass halves every run of holes, so its recursion is logarithmic.
- A poll round keeps the poll array and the connection list aligned **if and only
  if** no connection closes beside a new client and, otherwise, no slot stays open
  after two that closed; a run stays aligned exactly as long as its rounds are of
  that kind. A new client together with two closes makes `compress` call itself for
  ever; together with one close it leaves the array misaligned.
- A slot is read from whatever connection is at its index by then, so a close earlier
  in the round makes it read another one. In every run, aligned or not, what is passed
  on from a client is the beginning of what it says, in its order (`ClientLife`). In
  rounds that would keep the alignment, what is passed on is what the polled
  connections have to say **if and only if** no slot after a closed one delivers, save
  the last slot, and the same holds over runs (`RunReadIsSpokenIff`). Otherwise a
  reading can be taken from a connection that was not polled, or be lost.
- `FailingRounds` reaches each of these failing rounds from the initial state.
- The storage thread survives refused insertions: it reaches the barrier **if and only
  if** fewer insertions are refused than connections could be made (`Progress`), and
  its table then lacks exactly the refused readings.
- The gateway theorem (`GatewayEndsRight`) joins the parts: poll rounds, the script
  they give the writer, all interleavings, both consumers and the barrier. It holds of
  all that was read from the connections in any run, and of all that the polled
  connections said if every round is good.
- Closing a client's connection writes its log line from the record that has just been
  freed (`CloseConnection`); closing the server's does not.

Where code and comments disagree the model follows the code, and says exactly when
the comment holds:

- `dpl_insert_at_reference` with a NULL reference inserts before the last node (and
  nothing into an empty list); the header says at the end. The two agree exactly
  when there is a last element and it equals the new one (`InsertAtReference`).
- `dpl_get_previous_reference` with NULL returns NULL; the header says the last node.
  The two agree exactly when the list is empty (`GetPreviousReference`).
- `read_from_buffer` ignores the failure code: a caller is told to use data that was
  never stored exactly when its id is not below READERS (`GetDataWithoutData`).
- `datamgr_get_avg` is documented as 0 until a window is full; the code averages the
  values so far, padded with zeros. For a sensor with values the comment holds exactly
  when the window is full or the values add up to 0 (`AverageAfter`); one reading of 5
  degrees gives an average of 1 (`AverageOfOne`).
- `ma_malloc` is documented to return the address after the header; it returns the
  header's own, so the handle here is the header's offset.

A reader that is told NO_DATA while other readers have unread nodes left is as
documented: the buffer is empty to that reader, and readers do not wait for each other.

## Model

| member | source | states |
|---|---|---|
| Chunks.CanonicalUnique | lab_4/ma_malloc.c:99-114 | a chain that tiles the pool without free neighbours is determined by its live allocations |
| Chunks.MallocFailsIffNoFit | lab_4/ma_malloc.c:36-55 | NULL exactly when no free chunk spans two headers and tsize units, and then nothing changes |
| Chunks.MallocServesLowestFit | lab_4/ma_malloc.c:40-53 | otherwise the lowest offset with that room, one new allocation of that size, all others unchanged |
| Chunks.FreshPoolServes | lab_4/ma_malloc.c:26-55 | a fresh pool of n units serves a first request exactly if 8 + tsize <= n, at offset 0 |
| Chunks.CoalesceEffect | lab_4/ma_malloc.c:99-114 | one pass over any chain removes every pair of free neighbours and keeps tiling and allocations |
| Chunks.ReleaseEffect | lab_4/ma_malloc.c:61-65 | freeing removes exactly that allocation and leaves a tiled chain without free neighbours |
| Chunks.LiveDisjoint | lab_4/ma_malloc.c:36-55 | live allocations never overlap and lie inside the pool |
| Chunks.MallocThenFree | lab_4/ma_malloc.c:36-65 | a served request freed at once restores the previous chain exactly |
| Chunks.RunInvariant | lab_4/ma_malloc.c:26-65 | in every reachable state: exact tiling, no free neighbours, allocations equal to the client's ledger |
| Chunks.AllocationStays | lab_4/ma_malloc.c:36-65 | an allocation keeps offset and size through any run until it is freed |
| Chunks.HistoryIndependence | lab_4/ma_malloc.c:26-65 | two runs that leave the same live handles leave the same chain |
| Chunks.FreeAllRestoresInit | lab_4/ma_malloc.c:26-65 | freeing everything, in any order, leaves the state of ma_init |
| Chunks.StepExists | lab_4/ma_malloc.c:36-65 | every legal operation has a next state, so the run theorems are not vacuous |
| Allocator.Pool.Init | lab_4/ma_malloc.c:26-30 | one free chunk over the whole pool |
| Allocator.Pool.Malloc | lab_4/ma_malloc.c:36-55 | the header loop computes the first-fit split of the chain, in place: NULL exactly when no free chunk has the room, otherwise the lowest offset that has; no unit of a live allocation is written |
| Allocator.Pool.Free | lab_4/ma_malloc.c:61-65 | marks the chunk behind a live handle and coalesces, in place, and writes no unit of an allocation that stays live |
| Allocator.Pool.Coaless | lab_4/ma_malloc.c:99-114 | the in-place merge loop turns any tiled chain into its coalesced form and writes no unit of a live allocation |
| Allocator.Pool.Print | lab_4/ma_malloc.c:71-97 | the dump terminates by its equality test and shows one mark per unit of the pool |
| Allocator.ShowsWhatIsThere | lab_4/ma_malloc.c:77-89 | the mark of a unit is H exactly in a header, A exactly in the payload of a live allocation, a dot elsewhere |
| ListSpec.InsertShifts | final/lib/dplist.c:75-106 | after an insertion another node's index is unchanged before the position and one higher from it on |
| ListSpec.RemoveShifts | final/lib/dplist.c:108-132 | after a removal another node's index is unchanged before the position and one lower after it |
| ListSpec.IndexOfElement | final/lib/dplist.c:235-245 | the index of the node at index k is k |
| ListSpec.SortedInsertStaysSorted | final/lib/dplist.c:256-265 | sorted insertion keeps a list sorted for every total preorder |
| ListSpec.InsertedBeforeEquals | final/lib/dplist.c:256-265 | the new element stands before all that compare equal |
| ListSpec.SortedInsertUndone | final/lib/dplist.c:256-282 | sorted insertion followed by removal of an equal element restores the list, sorted or not |
| ListSpec.NullInsertAppendsIff | final/lib/dplist.c:247-254 | insertion at a NULL reference, into any list, appends exactly when there is a last element equal to the new one |
| PointerList.DPList.Free | final/lib/dplist.c:56-73 | every node released once, front to back, each element freed once iff asked; nothing is read from a released node |
| PointerList.DPList.InsertAtIndex | final/lib/dplist.c:75-106 | inserts at the index clamped to [0,n] and keeps the doubly linked invariant in every case |
| PointerList.DPList.RemoveAtIndex | final/lib/dplist.c:108-132 | removes and releases the node at the index clamped to [0,n-1], nothing on an empty list |
| PointerList.DPList.Size | final/lib/dplist.c:134-144 | the number of nodes |
| PointerList.DPList.GetReferenceAtIndex | final/lib/dplist.c:146-156 | the node at the clamped index, NULL on an empty list |
| PointerList.DPList.GetElementAtIndex | final/lib/dplist.c:158-165 | its element |
| PointerList.DPList.GetIndexOfElement | final/lib/dplist.c:167-178 | the first index that compares equal, -1 if there is none |
| PointerList.DPList.GetFirstReference | final/lib/dplist.c:180-183 | the first node |
| PointerList.DPList.GetLastReference | final/lib/dplist.c:185-188 | the last node |
| PointerList.DPList.GetNextReference | final/lib/dplist.c:190-196 | the node after a node of the list, NULL for anything else |
| PointerList.DPList.GetPreviousReference | final/lib/dplist.c:198-204 | the node before a node of the list, NULL for anything else; for NULL the promised last node exactly when the list is empty |
| PointerList.DPList.GetReferenceInList | final/lib/dplist.c:206-215 | the reference if it is in the list |
| PointerList.DPList.GetElementAtReference | final/lib/dplist.c:217-223 | the element of a node of the list, NULL standing for the last |
| PointerList.DPList.GetReferenceOfElement | final/lib/dplist.c:225-233 | the first node that compares equal |
| PointerList.DPList.GetIndexOfReference | final/lib/dplist.c:235-245 | the node's index, NULL standing for the last, -1 if it is not there |
| PointerList.DPList.InsertAtReference | final/lib/dplist.c:247-254 | inserts before the node, NULL standing for the last; nothing for a foreign reference; a NULL reference appends exactly when the last element equals the new one |
| PointerList.DPList.InsertSorted | final/lib/dplist.c:256-265 | inserts at the first position whose element is not smaller |
| PointerList.DPList.RemoveAtReference | final/lib/dplist.c:267-274 | removes the node, NULL standing for the last |
| PointerList.DPList.RemoveElement | final/lib/dplist.c:276-282 | removes the first node that compares equal |
| PointerList.InsertSortedThenRemove | final/lib/dplist.c:256-282 | on the heap: the two operations restore the very nodes that were there |
| Compaction.PassHalvesGaps | final/connmgr.c:223-230 | one pass keeps the descriptors in order and halves every run of holes that has a descriptor after it |
| Compaction.SettleCompacts | final/connmgr.c:217-232 | with exactly new_size descriptors: they end in front, in order, and holes behind |
| Compaction.SettlesIffEnough | final/connmgr.c:217-232 | some number of passes fills the first new_size entries exactly when there are descriptors enough |
| Compaction.TooFewNeverSettles | final/connmgr.c:231 | otherwise a hole is left after every number of passes |
| Compaction.LogarithmicDepth | final/connmgr.c:217-232 | n + 1 activations need a run of at least 2^n holes before some descriptor |
| Compaction.Compress | final/connmgr.c:217-232 | the recursive method terminates and computes the settled array, in that many activations |
| Compaction.ShiftHoles | final/connmgr.c:223-230 | the nested shifting loops compute one pass, in place |
| PollRound.CompressReturnsIff | final/connmgr.c:70-83 | at the end of a round compress returns unless a client joined while two or more closed |
| PollRound.AlignedIffBenign | final/connmgr.c:65-84 | slot i watches list element i after a round exactly when the round was benign |
| PollRound.TopBlockKept | final/connmgr.c:160-177 | when, after two closes, every later slot closes, the list loses exactly the connections that closed |
| PollRound.WrongOneRemoved | final/connmgr.c:160-177 | otherwise a connection that closed stays in the list |
| PollRound.WhoStays | final/connmgr.c:65-84 | after a benign round a connection is in the list unless its slot was a hangup or a failed read; a new client is in it exactly with a first reading |
| PollRound.AlignedRun | final/connmgr.c:65-84 | over runs: aligned up to a round exactly as long as all rounds were benign |
| PollRound.ServerStays | final/connmgr.c:96-122 | the server keeps index 0 and slot 0 through benign rounds |
| Sources.SlotIsOwnIff | final/connmgr.c:70-82 | in a round that keeps the alignment a delivering slot is read from the connection it watches exactly when no slot before it closes or it is the last |
| Sources.OwnAfterOneClose | final/connmgr.c:74-81 | after one close a later slot reads its own connection only if it is the last and nobody joined |
| Clients.RoundReadsInOrder | final/connmgr.c:70-82 | in any round, what is passed on from a connection followed by what is left unread of it is what it had to say |
| Clients.HandledAs | final/connmgr.c:70-82 | array and list go through the poll round of what becomes of the slots |
| Polling.ReadIsSpokenIff | final/connmgr.c:70-82 | in an aligned round that would keep the alignment: what is passed on is what the polled connections say exactly when no slot after a closed one delivers, save the last |
| Polling.RunReadIsSpokenIff | final/connmgr.c:65-84 | over runs of such rounds: all that is passed on is what the polled connections say exactly when every round is good |
| Polling.AlignedWhileGood | final/connmgr.c:65-84 | good rounds keep array and list aligned |
| Polling.WhoIsLeft | final/connmgr.c:65-84 | after a good round a connection is left exactly if it did not hang up, a new client exactly if it says anything |
| Polling.ClientLife | final/connmgr.c:124-158 | in any run, from the round a client connects: what is passed on from it, followed by what is left unread, is what it says, in its order |
| Polling.RunOfPolls | final/connmgr.c:65-84 | behind every run array and list go through a run of poll rounds |
| FailingRounds.Reach | final/connmgr.c:124-158 | every list of connections, with anything still to be read from them, is reached, aligned, by joining rounds |
| FailingRounds.JoinBesideTwoCloses | final/connmgr.c:217-232 | a reachable round after which compress does not return |
| FailingRounds.JoinBesideOneClose | final/connmgr.c:217-232 | a reachable round after which compress returns and the array is misaligned |
| FailingRounds.TwoClosesThenOpen | final/connmgr.c:160-177 | a reachable round of four connections after which the list is server and second close while the slots watch server and the open one |
| FailingRounds.MisreadAfterClose | final/connmgr.c:74-81 | a reachable round that keeps the alignment, passes on the reading of a connection that was not polled and leaves that of the polled one unread |
| FailingRounds.LostAfterTwoCloses | final/connmgr.c:160-215 | a reachable round in which a polled connection is closed with its reading unread, and nothing is passed on |
| ConnMgr.ConnectionManager.InsertClient | final/connmgr.c:124-158 | reallocated array with the new descriptor; the client joins the list only with a first reading, which is passed on |
| ConnMgr.ConnectionManager.CloseConnection | final/connmgr.c:160-177 | removes the list element, frees its record and marks the slot; the log line uses the freed record exactly when index > 0 |
| ConnMgr.ConnectionManager.ReadOrClose | final/connmgr.c:206-215 | takes the next reading of the connection at hand, or closes it if there is none |
| ConnMgr.ConnectionManager.PollOnce | final/connmgr.c:65-84 | one turn of the poll loop, in place, computes the round: each ready slot takes the next reading of the connection at its index |
| ConnMgr.ConnectionManager.Listen | final/connmgr.c:59-88 | the whole loop computes the run, passes on all readings in order and closes the server |
| ConnMgr.ListenAndFree | final/main.c:112-113 | from init to connmgr_free: what is passed on is what the run reads, and, in benign rounds, what the polled connections say exactly when every round is good |
| BufferSpec.InsertRepresents | final/sbuffer.c:71-88 | an insertion appends to the history and moves no cursor |
| BufferSpec.RemoveRepresents | final/sbuffer.c:41-69 | NO_DATA exactly when the reader has read all; otherwise its next reading, its cursor moves by one, and a cell goes when the slowest passes it |
| BufferSpec.UnreadIsRest | final/sbuffer.c:41-56 | a reader's unflagged cells are the history from its cursor on |
| LinkedBuffer.SharedBuffer.Insert | final/sbuffer.c:71-88 | appends a node no reader has seen and keeps the list invariant |
| LinkedBuffer.SharedBuffer.Remove | final/sbuffer.c:41-69 | on the heap: result and new queue are those of the value model, FAILURE for an id not below READERS; the node that goes is the first, and it is released |
| LinkedBuffer.SharedBuffer.FindUnread | final/sbuffer.c:45-52 | the walk stops at the reader's first unflagged node |
| LinkedBuffer.SharedBuffer.ReadByAll | final/sbuffer.c:58 | whether every flag of a node is set |
| LinkedBuffer.SharedBuffer.Free | final/sbuffer.c:26-39 | releases exactly the nodes left, each once, front to back |
| CriticalSections.Gateway.WriteToBuffer | final/main.c:48-53 | the writer's critical section is an insertion and leaves the flag alone |
| CriticalSections.Gateway.ReadFromBuffer | final/main.c:56-68 | the reader's critical section computes the message from queue and flag |
| CriticalSections.Gateway.RaiseFlag | final/main.c:115-117 | raises the flag and leaves the queue alone |
| CriticalSections.Gateway.FreeBuffer | final/main.c:224 | releases as many nodes as there are cells |
| CriticalSections.PerformRun | final/main.c:48-68 | the sections performed one after another on the heap, in the order of any run, give every reader the messages of the state machine |
| CriticalSections.Finish | final/main.c:215-224 | past the barrier the buffer is freed without a node left to release |
| Protocol.GetDataWithoutData | final/main.c:62-67 | GET_DATA comes without data exactly for an id not below READERS |
| Protocol.ReadStep | final/main.c:56-68 | in a reachable state a read answers with the next reading of the history, or wait, or terminate |
| Protocol.RunInv | final/main.c:48-181 | the invariant of every interleaving: cells represent history and cursors, each reader has a prefix, terminated readers have all |
| Protocol.EachReaderSeesTheHistory | final/sbuffer.c:41-88 | in every interleaving consumed followed by unread is the whole insertion history |
| Protocol.LengthIsSlowest | final/sbuffer.c:56-67 | the queue is as long as the history minus the slowest reader's count |
| Protocol.HistoryIsScript | final/main.c:48-53 | history and what is still to be written are always the script, and all of it is written when the flag goes up |
| Shutdown.HistoryIsFinal | final/main.c:112-117 | nothing is inserted once the flag is up |
| Shutdown.ShutdownIsSafe | final/main.c:56-68 | a reader told to terminate has the whole history, and that stays so |
| Shutdown.EmptyAtBarrier | final/main.c:215-224 | when everyone has arrived at the barrier the buffer is empty and every reader has the whole history |
| Shutdown.NoWaitAfterFlag | final/main.c:62-65 | with the flag up a read gives the next reading or the order to terminate, never "wait" |
| Shutdown.DrainTerminates | final/main.c:56-68 | the reads made after the flag are exactly the pending calls used up |
| Shutdown.DrainIsExact | final/sensor_db.c:72-78 | a reader that terminates after the flag has heard its unread readings and one order to terminate, nothing else |
| Shutdown.ShutdownIsBounded | final/main.c:108-225 | after the flag the steps of a run are exactly the steps-left measure used up, in every interleaving |
| Shutdown.NeverStuck | final/main.c:108-225 | until the buffer is freed or the process aborts some thread can step |
| Shutdown.CanComplete | final/main.c:108-225 | every run in which nothing aborts can be carried on until the buffer is freed |
| Storage.DrainStores | final/sensor_db.c:67-86 | one pass of the consumer loop appends what it stores and loses at most the reading it fails on |
| Storage.DrainEnds | final/sensor_db.c:76-84 | the loop succeeds only on the order to terminate and fails only on a refused insertion |
| Storage.BoundedLoss | final/main.c:147-172 | reaching the barrier: table is exactly this run's stored readings, fewer lost than there were tries |
| Storage.Progress | final/main.c:150-172 | the thread aborts exactly when as many insertions were refused as connections could be made; otherwise it is at the barrier exactly when told to terminate |
| Storage.AllGood | final/main.c:150 | with every opening good there are as many connections as tries |
| Storage.NeverOpens | final/main.c:152-171 | if the database never opens the thread aborts, rows as they were and no message used |
| Storage.RowsOnlyGrow | final/main.c:158-160 | after the first successful connection no attempt removes a row |
| Storage.Database.InitConnection | final/sensor_db.c:12-44 | connected exactly if the open, the drop where asked for and the create succeed; the rows go exactly if a drop was asked for and reached and succeeds |
| Storage.Database.InsertSensor | final/sensor_db.c:52-65 | a refused insertion leaves the rows as they are |
| Storage.InsertSensorFromBuffer | final/sensor_db.c:67-86 | the consumer loop computes its value model |
| Storage.Strgmgr | final/main.c:143-181 | the retry loop computes the attempts; told to terminate at the end it reaches the barrier exactly when fewer insertions were refused than connections could be made; with the database disabled it aborts |
| Windows.WindowAfter | final/datamgr.c:50-69 | after any history a sensor holds its last values padded with zeros, their average and the time of its last reading; a duplicate id is never touched |
| Windows.WindowsOfMap | final/datamgr.c:44-69 | the same for all sensors of a map file, in the order of the loaded list |
| Windows.AverageSlides | final/datamgr.c:121-131 | a new value moves the average by its difference to the oldest one, divided by the length of the window |
| Windows.AverageOfEqual | final/datamgr.c:121-131 | a window of equal values has that value as its average, which with the law above fixes every average |
| Windows.AverageIsZeroIff | final/datamgr.h:32 | the average of a window is 0 until it is full exactly when the values so far add up to 0 |
| Windows.AverageOfOne | final/datamgr.c:121-131 | an input for which it is not 0 |
| Windows.OthersUnaffected | final/datamgr.c:59-69 | a reading changes no sensor but the first with its id |
| Windows.AlertIff | final/datamgr.c:73-83 | an alert is raised exactly when the window is full, its oldest value is not zero and its average is out of range |
| Windows.UnknownSensor | final/datamgr.c:58-65 | a reading of a sensor without a line in the map gives exactly one "invalid sensor" line and changes nothing |
| Windows.LogGrows | final/datamgr.c:60-82 | the log lines of later readings come after those of earlier ones |
| Windows.LoadedIsSorted | final/datamgr.c:133-143 | the loaded list is in ascending order of rooms |
| Windows.LoadedIsPermutation | final/datamgr.c:133-143 | and holds exactly the lines of the map |
| DataMgr.Data.CalcRunningAvg | final/datamgr.c:121-131 | the shifting loop computes the new window and its average, in place |
| DataMgr.DataManager.GetDataFromList | final/datamgr.c:109-119 | the first record with the id |
| DataMgr.DataManager.InitListFromMap | final/datamgr.c:133-143 | the list after sorted insertion of every line, in fresh records whose windows are all zero |
| DataMgr.DataManager.Accept | final/datamgr.c:58-83 | one reading updates its record and gives its log lines |
| DataMgr.DataManager.Consume | final/datamgr.c:50-85 | the consumer loop feeds every reading heard up to the order to terminate |
| DataMgr.DataManager.ParseSensorBuffer | final/datamgr.c:40-85 | from the lines of the map to the end of the loop: every sensor of the map has the window of its readings |
| DataMgr.DataManager.AverageAfter | final/datamgr.c:94-96 | after such a run the average of a sensor with values meets its header exactly when the window is full or the values add up to 0 |
| EndToEnd.Terminated | final/main.c:56-68 | a reader is told to terminate once, at the end, after the whole history |
| EndToEnd.DataManagerEndsRight | final/datamgr.c:50-69 | on every run the terminated data thread holds, for each mapped sensor, the window of its part of the whole history and the time of its last reading |
| EndToEnd.StorageEndsRight | final/main.c:143-181 | on every run a storage thread told to terminate is at the barrier exactly when fewer insertions were refused than connections could be made, and leaves the history, in order, less the refused |
| EndToEnd.HistoryIsTaken | final/main.c:108-117 | what has been inserted is the beginning of what was read from the connections, all of it once the flag is up; in good rounds it is what the polled connections said |
| EndToEnd.GatewayEndsRight | final/main.c:215-224 | when main passes the barrier and fewer insertions were refused than connections could be made: the buffer is empty, and both consumers, their windows and the table are right for all that was read from the connections in any run, and for all that the polled connections said if every round was good |

## Left out

- Sockets, poll, the FIFO pipe, fork, file and SQL text: replaced by reports, streams of readings, messages and outcomes chosen by the environment.
- ConnMgr.ConnectionManager.InsertClient: a connection that ends before a full reading fails the read; built with assertions the source aborts there. Timestamps and the reading kept in the connection record are not part of this model.
- Clients.RoundReadsInOrder: a connection without a reading yet is waited for, so when a client speaks is not part of this model, only what it says in all.
- Polling.ReadIsSpokenIff: poll reports a slot as ready only when its connection has a reading; of rounds that end misaligned it says nothing, there several closes may shift a slot's connection anywhere.
- ConnMgr.ConnectionManager.Listen: returns the readings in order; the state machine then takes them as the writer's script, one critical section for each.
- A list element is never written after the node is made; the source clears it only through element_free, just before releasing the node. The list object itself is not freed.
- Allocator.Pool.Malloc: sizes are unbounded naturals, so a negative tsize or integer overflow in the header arithmetic is not modelled, and neither is the byte layout of headers or what clients write.
- Storage.Strgmgr: connections that a failed attempt leaves open are not modelled, only the rows of the table.
- DataMgr.Data.CalcRunningAvg: averages are real numbers, not doubles; the average before the first reading is undefined in the source and nothing is claimed about it.
- DataMgr.DataManager.InitListFromMap: works on the lines of a well-formed map file; fscanf and feof are environment.
- DataMgr.DataManager.ParseSensorBuffer: takes the messages it hears as a sequence; which they are is the state machine's.
- Allocation failure and the debug and assert macros: an assertion is a precondition, or aborts the run in the state machine.
- The barrier counts READERS + 2 parties; the source writes 4 for its two readers.
- The copies of these files under the other labs, the sensor node and the TCP library are not part of this model.
