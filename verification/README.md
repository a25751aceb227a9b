# playground_cpp concurrency core in Dafny

This project models the concurrency experiments of the playground_cpp
repository, file by file, and proves what each of them computes for one
thread's view of the state. It covers:

- **Lock-free stacks.** Six variants:
  - `LockfreeStack`, which deletes a popped node at once;
  - `LockfreeStackSharedPtr`, whose nodes are owned through `shared_ptr`;
  - `LockfreeStackReferenceCounting`, a split count with an `unsigned` internal count;
  - the older `lock_free_stack`, the same split count with `int` counts;
  - `LockfreeStackHazardPointer`, with a global table of hazard pointers and a reclaim list;
  - `LockfreeStackDeleteList`, which counts the threads inside `Pop` and keeps a list of pending nodes.

  All of them allocate nodes in one arena (module `Arena`). A node address is a number and 0 is null. `delete` moves an address from the live nodes to the freed set, so every contract can say exactly which nodes a call frees.
- **Work-stealing thread pool.** `WorkStealingQueue` is a deque: the owner pops the front and a thief steals the back. `ThreadPool` has one such queue per worker and a global queue. `AddTask` routes a task to the caller's own queue or to the global queue, and `RunPendingTasks` tries the caller's queue, then the global queue, then a steal scan over the other queues.
- **Simple thread pool** (`thread_pool.h`/`thread_pool.cpp`): one FIFO task list with a `stop_` flag.
- **Parallel sort** (`Sorter`): it pivots on the first element, pushes the lower part onto a `ThreadsafeStack` of chunks and sorts chunks while it waits.
- **Parallel algorithms:** `PartialSum`, `ParallelAccumulate`, `Find` and `FindRecursive`, `ForEach` and `ForEachRecursive`. They split a range into blocks, or into halves.
- **Lock-based containers:** `ThreadsafeStack`, the two-lock `ThreadsafeQueue` with a dummy tail node, the hand-over-hand `ThreadsafeList` and the bucketed `ThreadsafeLookupTable`.
- **Hierarchy-checked mutex:** `HierarchicalMutex`.
- **Greeting:** `MessagePrinter::GetMessage`.

Code that changes state step by step is modelled as classes with `modifies` frames, and loops as methods with invariants. Each method is proved against a reference function or a stated invariant. Pure index arithmetic is modelled as functions with lemmas.

One C++ thread runs the code at a time. Every compare-and-swap therefore succeeds on its first try. Other threads appear only where their effect can be stated:
- for the split-count stacks, a lost race and the counts that other poppers raised;
- for the hazard-pointer stack, the pointers published in the table;
- for the delete-list stack, the threads counted inside `Pop`.

Inputs that come from the platform are parameters: the hardware concurrency, the hash function and the caller's local-queue index.

Where the prose description of the system and the code disagree, the model follows the code:
- The owner of a work-stealing queue pops the oldest task, from the front (`TryPop`, thread_pool.hpp:65-74). Thieves steal the newest task, from the back. The description has the owner working LIFO.
- The sorter starts threads of its own and shares its lower chunks through a `ThreadsafeStack`. It does not submit them to the work-stealing pool.

## Model

| member | source | states |
|---|---|---|
| PrintClass.GetMessage | src/print_class/print_class.cpp:4-9 | an empty name gives "Hello, stranger!"; any other name gives a greeting `|name| + 8` long that holds the name between the "Hello, " prefix and a closing "!"; every greeting starts with "Hello, " and ends with "!" |
| PrintClass.GetMessageInjective | src/print_class/print_class.cpp:8 | two non-empty names with the same greeting are the same name: the name can be read back from the greeting |
| PrintClass.GetMessageWorld | tests/test_print_class.cpp:14-25 | "World" is greeted as "Hello, World!" |
| Sums.PrefixSums | experiments/concurrent_algorithms/include/concurrent/partial_sum.hpp:21 | the prefix sums of a sequence have its length |
| Sums.RangeSumSplit | include/playground/threading/parallel_accumulate.hpp:44 | a range sum is the sum of its two parts at any split point |
| Sums.RangeSumAgree | experiments/concurrent_algorithms/include/concurrent/partial_sum.hpp:21 | a range sum depends only on the elements in the range |
| Sums.SumConcat | include/playground/threading/parallel_accumulate.hpp:44 | the sum of a concatenation is the sum of the sums |
| Sums.RangeSumShift | include/playground/threading/parallel_accumulate.hpp:7-11 | summing the tail of a sequence equals summing the sequence that tail copies |
| Sums.PrefixSumsStep | experiments/concurrent_algorithms/include/concurrent/partial_sum.hpp:21 | the first prefix sum is the first element, each later one is the previous plus the next element, and the last is the total |
| Sums.PrefixSumsPointwise | experiments/concurrent_algorithms/include/concurrent/partial_sum.hpp:21 | a sequence holding the inclusive range sum at every index is the prefix-sum sequence |
| Blocks.NumThreads | experiments/concurrent_algorithms/include/concurrent/partial_sum.hpp:73-80 | the thread count of a non-empty range is between 1 and the length, at most `max(2, hw)`, and 1 for at most 25 elements |
| Blocks.AccumulateThreads | include/playground/threading/parallel_accumulate.hpp:18-24 | the accumulate thread count of a non-empty range is between 1 and the length, at most `hw` (2 when `hw` is 0), and at most 1 when `hw` is 1 |
| Blocks.BlockSize | experiments/concurrent_algorithms/include/concurrent/partial_sum.hpp:81 | whenever there are at most as many blocks as elements, a block holds at least one element |
| Blocks.BlockBounds | experiments/concurrent_algorithms/include/concurrent/partial_sum.hpp:89-105 | there is one bound pair per thread |
| Blocks.BlockStartIsProduct | experiments/concurrent_algorithms/include/concurrent/partial_sum.hpp:89-97 | advancing the block start `i` times by the block size reaches `i * block_size` |
| Blocks.BlockStep | experiments/concurrent_algorithms/include/concurrent/partial_sum.hpp:90-97 | each block the loop starts lies inside the range, and the next start is one past its end |
| Blocks.BlocksTile | experiments/concurrent_algorithms/include/concurrent/partial_sum.hpp:89-105 | the blocks tile the range: the first starts at 0, each starts where the previous ends, the last ends at the length, and none is empty |
| Blocks.BlocksCoverOnce | experiments/concurrent_algorithms/include/concurrent/for_each.hpp:36-48 | every index of the range lies in exactly one block |
| Blocks.LastStartAtOrBefore | experiments/concurrent_algorithms/include/concurrent/for_each.hpp:36-48 | an index at or after a block's start lies in that block or a later one |
| Blocks.BlockEndBeforeLaterStart | experiments/concurrent_algorithms/include/concurrent/for_each.hpp:36-48 | blocks are ordered: an earlier block ends no later than a later one starts |
| PartialSum.PartialSumInPlace | experiments/concurrent_algorithms/include/concurrent/partial_sum.hpp:19-21 | each element of the range becomes the sum of the range up to and including it; nothing outside the range changes |
| PartialSum.ChunkProcess | experiments/concurrent_algorithms/include/concurrent/partial_sum.hpp:16-34 | each element of the inclusive chunk becomes its in-chunk prefix sum plus the predecessor's total, if any; elements outside the chunk are unchanged; the chunk's final total is handed on exactly when a successor exists |
| PartialSum.ChunkStep | experiments/concurrent_algorithms/include/concurrent/partial_sum.hpp:22-31 | a chunk's local prefix sums plus the total of everything before it are the global prefix sums |
| PartialSum.PartialSum | experiments/concurrent_algorithms/include/concurrent/partial_sum.hpp:68-105 | the array ends up holding the sequential prefix sums of its old contents; an empty range stays as it is |
| PartialSum.PrefixSumsExample | experiments/concurrent_algorithms/tests/test_partical_sum.cpp:36-47 | [1, 2, 3, 4] becomes [1, 3, 6, 10] |
| ParallelAccumulateModel.AccumulateBlock | include/playground/threading/parallel_accumulate.hpp:7-11 | the block's slot becomes its old value plus the sum of the block; no other slot changes |
| ParallelAccumulateModel.Accumulate | include/playground/threading/parallel_accumulate.hpp:44 | the fold returns the initial value plus the sum of the sequence |
| ParallelAccumulateModel.BlockSumsAdd | include/playground/threading/parallel_accumulate.hpp:26-44 | the sums of the first `n` blocks of a tiling add up to the sum of everything before the end of block `n - 1` |
| ParallelAccumulateModel.SumBlocks | include/playground/threading/parallel_accumulate.hpp:28-38 | each of the zeroed result slots ends up holding the sum of its own block, and every block lies inside the range |
| ParallelAccumulateModel.ParallelAccumulate | include/playground/threading/parallel_accumulate.hpp:14-45 | the result is `init` plus the sum of every element (`init` for an empty range); a non-empty range has one result slot per thread, and each slot holds the sum of its block |
| ParallelAccumulateModel.AccumulateExample | include/playground/threading/parallel_accumulate.hpp:18-24 | on a single-thread machine forty ones summed onto 2 give 42, all in one block |
| ParallelAccumulateModel.OnesSum | include/playground/threading/parallel_accumulate.hpp:44 | a run of `k` ones sums to `k` |
| FindModel.FirstMatch | experiments/concurrent_algorithms/include/concurrent/find.hpp:18-23 | the reference search result lies in the range, holds the value when it is below the end, and no earlier index holds the value |
| FindModel.FirstMatchUnique | experiments/concurrent_algorithms/include/concurrent/find.hpp:18-23 | any index with those three properties is the first match |
| FindModel.FirstMatchSplit | experiments/concurrent_algorithms/include/concurrent/find.hpp:99-100 | searching a range is searching its lower part and, only when that finds nothing, its upper part |
| FindModel.DoneFlag.constructor | experiments/concurrent_algorithms/include/concurrent/find.hpp:53 | the shared flag starts clear |
| FindModel.Promise.constructor | experiments/concurrent_algorithms/include/concurrent/find.hpp:52 | the promise starts empty |
| FindModel.Promise.SetValue | experiments/concurrent_algorithms/include/concurrent/find.hpp:20 | a second `set_value` fails with a logic error and keeps the first value; the first one stores the index |
| FindModel.Finder | experiments/concurrent_algorithms/include/concurrent/find.hpp:13-35 | a finder that starts with the flag set changes nothing; otherwise it finds nothing or loses to an earlier report and changes nothing, or it stores the first match of its block and sets the flag |
| FindModel.Find | experiments/concurrent_algorithms/include/concurrent/find.hpp:11-72 | with the finders run in block order (see "## Left out"), the result is the first index holding the value, or `last` when there is none (also for an empty range); a result before `last` holds the value |
| FindModel.FindRecursiveCore | experiments/concurrent_algorithms/include/concurrent/find.hpp:74-106 | the result lies in the range and holds the value when it is below the end; with the flag clear on entry and the upper half deferred (see "## Left out"), it is the first match, and the flag ends up set exactly when a match was found; with the flag set on entry nothing is found |
| FindModel.FindRecursive | experiments/concurrent_algorithms/include/concurrent/find.hpp:108-112 | the halving search from a clear flag, with each upper half deferred, returns the first match or `last` |
| FindModel.FindExample | experiments/concurrent_algorithms/tests/test_find.cpp:26-76 | the earliest 2 in [1, 2, 3, 2, 1] is at index 1; a miss and an empty range give `last`; 9 in [7, 8, 9] is at the back |
| ForEachModel.ForEachRange | experiments/concurrent_algorithms/include/concurrent/for_each.hpp:41 | each element of the range becomes `f` of its old value; the others keep theirs |
| ForEachModel.ForEach | experiments/concurrent_algorithms/include/concurrent/for_each.hpp:11-54 | `f` is applied to every element of the array exactly once, whatever the thread count; an empty array is left alone |
| ForEachModel.ForEachRecursive | experiments/concurrent_algorithms/include/concurrent/for_each.hpp:56-74 | every element of the range has `f` applied exactly once, and nothing outside the range changes |
| ForEachModel.ForEachExample | experiments/concurrent_algorithms/tests/test_for_each.cpp:8-16 | incrementing `v[i] == i` gives `i + 1` everywhere, with both versions |
| ThreadsafeStackModel.ThreadsafeStack.constructor | include/playground/threading/threadsafe_stack.hpp:13 | a new stack is empty |
| ThreadsafeStackModel.ThreadsafeStack.Copy | include/playground/threading/threadsafe_stack.hpp:14-17 | the copy holds the same contents as the stack it copies |
| ThreadsafeStackModel.ThreadsafeStack.Push | include/playground/threading/threadsafe_stack.hpp:20-23 | the value becomes the new top and the size grows by one |
| ThreadsafeStackModel.ThreadsafeStack.Pop | include/playground/threading/threadsafe_stack.hpp:39-50 | on an empty stack the result is null and the stack is unchanged; otherwise the result is the most recently pushed value, which leaves the stack |
| ThreadsafeStackModel.ThreadsafeStack.PopInto | include/playground/threading/threadsafe_stack.hpp:25-37 | as written: the result is true exactly when the stack was non-empty, in which case the top leaves the stack; the out-parameter always comes back unchanged; on an empty stack nothing changes |
| ThreadsafeStackModel.ThreadsafeStack.PopIntoCorrected | include/playground/threading/threadsafe_stack.hpp:25-37 | as intended: on success the out-parameter receives the popped top; on failure neither the stack nor the out-parameter changes |
| ThreadsafeStackModel.ThreadsafeStack.Size | include/playground/threading/threadsafe_stack.hpp:52-55 | the size is the number of stacked values |
| ThreadsafeStackModel.PopIntoLosesValue | include/playground/threading/threadsafe_stack.hpp:35 | after pushing 7, `Pop(value)` with `value == 0` reports success and leaves `value` at 0, while the corrected pop delivers 7 |
| ThreadsafeStackModel.LifoExample | include/playground/threading/threadsafe_stack.hpp:20-55 | pushing 1, 2, 3 and popping four times gives 3, 2, 1, then null; a copy taken before the pops still has size 3 |
| ThreadsafeQueueModel.QNode.constructor | include/playground/threading/threadsafe_queue.hpp:62-67 | a new node holds no data and has no successor |
| ThreadsafeQueueModel.ThreadsafeQueue.constructor | include/playground/threading/threadsafe_queue.hpp:8 | a new queue is empty: `head_` and `tail_` are one dummy node, and the list invariant holds |
| ThreadsafeQueueModel.ThreadsafeQueue.Push | include/playground/threading/threadsafe_queue.hpp:12-23 | the contents become the old contents followed by the value; the tail is a fresh dummy; the list invariant is kept |
| ThreadsafeQueueModel.ThreadsafeQueue.PopHead | include/playground/threading/threadsafe_queue.hpp:80-84 | on a non-empty queue the unlinked node holds the oldest value, which leaves the contents; the tail stays; the list invariant is kept |
| ThreadsafeQueueModel.ThreadsafeQueue.TryPop | include/playground/threading/threadsafe_queue.hpp:35-42 | on an empty queue the result is null and nothing changes; otherwise the result is the oldest value, which leaves the queue |
| ThreadsafeQueueModel.ThreadsafeQueue.TryPopInto | include/playground/threading/threadsafe_queue.hpp:25-33 | the result is true exactly when the queue was non-empty; then the oldest value moves into `value` and leaves the queue; otherwise `value` and the queue are unchanged |
| ThreadsafeQueueModel.ThreadsafeQueue.WaitAndPop | include/playground/threading/threadsafe_queue.hpp:44-48 | once the queue is non-empty, the oldest value is delivered and leaves the queue, as with a successful `try_pop` |
| ThreadsafeQueueModel.ThreadsafeQueue.Empty | include/playground/threading/threadsafe_queue.hpp:56-59 | the result is true exactly when no value is queued |
| ThreadsafeQueueModel.FifoExample | tests/test_threadsafe_queue.cpp:7-30 | a new queue pops null; pushing 1 and popping gives 1; pushing 2, 3, 4, 5 and popping five times gives 2, 3, 4, 5, then null |
| ThreadsafeListModel.RemovedIf | include/playground/threading/threadsafe_list.hpp:53-68 | the reference removal keeps at most as many elements as it is given |
| ThreadsafeListModel.RemovedIfMembers | include/playground/threading/threadsafe_list.hpp:58-66 | a value survives the removal exactly when it was in the list and does not satisfy the predicate |
| ThreadsafeListModel.RemovedIfNone | include/playground/threading/threadsafe_list.hpp:62-66 | a predicate that holds for no element leaves the list unchanged |
| ThreadsafeListModel.UnlinkNext | include/playground/threading/threadsafe_list.hpp:59-60 | pointing a node past its successor leaves a well-formed chain without that successor and its value |
| ThreadsafeListModel.WalkStep | include/playground/threading/threadsafe_list.hpp:56-66 | one visited node either leaves the kept prefix as it is and drops its value, or joins the kept prefix, and the rest of the walk is the rest of the input |
| ThreadsafeListModel.LNode.constructor | include/playground/threading/threadsafe_list.hpp:71-78 | a new node holds the given data and has no successor |
| ThreadsafeListModel.ThreadsafeList.constructor | include/playground/threading/threadsafe_list.hpp:10 | a new list is the data-less sentinel alone |
| ThreadsafeListModel.ThreadsafeList.PushFront | include/playground/threading/threadsafe_list.hpp:16-21 | the value becomes the first element, in front of the old contents |
| ThreadsafeListModel.ThreadsafeList.ForEach | include/playground/threading/threadsafe_list.hpp:23-34 | `f` is called once per element, front to back: the calls match the contents one for one |
| ThreadsafeListModel.ThreadsafeList.FindFirstIf | include/playground/threading/threadsafe_list.hpp:36-50 | the result is null exactly when no element satisfies `p`; otherwise it is an element satisfying `p` with none before it; the list is not changed |
| ThreadsafeListModel.ThreadsafeList.RemoveIf | include/playground/threading/threadsafe_list.hpp:52-68 | the contents become the old contents without the elements satisfying `p`, the rest in their order |
| ThreadsafeListModel.UnlinkMatching | include/playground/threading/threadsafe_list.hpp:54-67 | the walk leaves a well-formed chain from the same sentinel that holds the input without the matching values |
| ThreadsafeListModel.PushFrontExample | tests/test_threadsafe_list.cpp:12-21 | pushing 1, 2, 3 at the front makes a traversal see 3, 2, 1 |
| ThreadsafeListModel.RemoveIfExample | tests/test_threadsafe_list.cpp:39-49 | removing the even values from 5, 4, 3, 2, 1 leaves 5, 3, 1 |
| LookupTableModel.FindEntry | include/playground/threading/threadsafe_lookup_table.hpp:79-83 | the scan result is at most the bucket length; below it, the entry has the key; no earlier entry has the key |
| LookupTableModel.AsMapKeys | include/playground/threading/threadsafe_lookup_table.hpp:88 | a key is in the map an entry list denotes exactly when some entry has it |
| LookupTableModel.AsMapAt | include/playground/threading/threadsafe_lookup_table.hpp:88 | with distinct keys, the denoted map gives every entry's key that entry's value |
| LookupTableModel.AsMapLookup | include/playground/threading/threadsafe_lookup_table.hpp:50-54 | with distinct keys, the scan finds a key exactly when the map holds it, and the found entry holds the map's value |
| LookupTableModel.AsMapUpdate | include/playground/threading/threadsafe_lookup_table.hpp:61-63 | overwriting an entry's value overwrites that key in the map and keeps the keys distinct |
| LookupTableModel.AsMapAppend | include/playground/threading/threadsafe_lookup_table.hpp:59-60 | appending an entry with an absent key adds that key to the map and keeps the keys distinct |
| LookupTableModel.EraseDistinct | include/playground/threading/threadsafe_lookup_table.hpp:69-71 | erasing an entry keeps the remaining keys distinct |
| LookupTableModel.AsMapErase | include/playground/threading/threadsafe_lookup_table.hpp:69-71 | erasing an entry removes exactly its key from the map |
| LookupTableModel.Bucket.constructor | include/playground/threading/threadsafe_lookup_table.hpp:16 | a new bucket holds no entries |
| LookupTableModel.Bucket.FindEntryFor | include/playground/threading/threadsafe_lookup_table.hpp:79-83 | the loop returns the first entry with the key, or the end |
| LookupTableModel.Bucket.ValueFor | include/playground/threading/threadsafe_lookup_table.hpp:50-54 | the result is the value stored for the key, or the default when the key is absent |
| LookupTableModel.Bucket.AddOrUpdate | include/playground/threading/threadsafe_lookup_table.hpp:56-64 | the bucket's map gets the key set to the value and nothing else changes; an existing entry is overwritten in place, otherwise one entry is appended; keys stay distinct |
| LookupTableModel.Bucket.Remove | include/playground/threading/threadsafe_lookup_table.hpp:66-72 | the bucket's map loses exactly the key; the entry is erased and the others keep their order; an absent key changes nothing |
| LookupTableModel.LookupTable.BucketIndex | include/playground/threading/threadsafe_lookup_table.hpp:92-95 | the selected bucket index is always in range |
| LookupTableModel.LookupTable.constructor | include/playground/threading/threadsafe_lookup_table.hpp:12-18 | the table has exactly `bucket_num` fresh buckets (19 by default), holds nothing, and its invariant holds |
| LookupTableModel.LookupTable.ValueFor | include/playground/threading/threadsafe_lookup_table.hpp:22-24 | the result is the table's value for the key, or the default when the key is absent |
| LookupTableModel.LookupTable.AddOrUpdate | include/playground/threading/threadsafe_lookup_table.hpp:26-28 | the key now maps to the value and no other key changes; each key stays once, in the bucket its hash selects |
| LookupTableModel.LookupTable.Remove | include/playground/threading/threadsafe_lookup_table.hpp:30 | the key is no longer mapped and no other key changes; removing an absent key is a no-op |
| LookupTableModel.LookupTable.GetMap | include/playground/threading/threadsafe_lookup_table.hpp:32-45 | the map built from all the buckets is exactly the table's contents |
| LookupTableModel.AddGetRemoveExample | tests/test_threadsafe_lookup_table.cpp:6-24 | a missing key gives the default, an added key its value, and a removed key the default again |
| LookupTableModel.GetMapExample | tests/test_threadsafe_lookup_table.cpp:26-32 | after adding name and age, the map holds exactly those two pairs |
| HierarchicalMutexModel.LockStep | include/playground/threading/hierarchical_mutex.hpp:14-18 | a lock fails with a logic error exactly when the thread's level is not strictly above the mutex's; a success saves the old level, sets the thread to the mutex's level and holds the mutex |
| HierarchicalMutexModel.UnlockStep | include/playground/threading/hierarchical_mutex.hpp:20-26 | an unlock fails exactly when the thread's level is not this mutex's level; a success gives the thread the saved level and frees the mutex |
| HierarchicalMutexModel.TryLockStep | include/playground/threading/hierarchical_mutex.hpp:28-35 | a try-lock fails exactly when a lock would; it returns false with nothing changed when the mutex is held, and otherwise has the effect of a lock |
| HierarchicalMutexModel.LockUnlockRestores | include/playground/threading/hierarchical_mutex.hpp:24 | after a successful lock, unlocking the same mutex succeeds and restores the thread's earlier level |
| HierarchicalMutexModel.NestedUnlockOrder | include/playground/threading/hierarchical_mutex.hpp:20-24 | with two nested locks, releasing the outer one first is a violation, and releasing them in reverse order restores the thread's level |
| HierarchicalMutexModel.LockAllSucceeds | include/playground/threading/hierarchical_mutex.hpp:38-42 | a run of locks succeeds exactly when the levels strictly decrease from the thread's level, and it leaves the thread at the last level locked |
| HierarchicalMutexModel.MaxLevelNeverLocks | include/playground/threading/hierarchical_mutex.hpp:54-55 | from `ULONG_MAX`, a lock fails exactly for a mutex of level `ULONG_MAX`, and a try-lock of such a mutex always fails |
| HierarchicalMutexModel.ThreadState.constructor | include/playground/threading/hierarchical_mutex.hpp:54-55 | a thread starts at level `ULONG_MAX` |
| HierarchicalMutexModel.HierarchicalMutex.constructor | include/playground/threading/hierarchical_mutex.hpp:11-12 | a new mutex has the given level, a saved level of 0, and is free |
| HierarchicalMutexModel.HierarchicalMutex.CheckForHierarchyViolation | include/playground/threading/hierarchical_mutex.hpp:38-42 | the check reports a logic error exactly when the thread's level is at or below the mutex's level |
| HierarchicalMutexModel.HierarchicalMutex.UpdateHierarchyValue | include/playground/threading/hierarchical_mutex.hpp:44-47 | the thread's old level is saved and the thread takes the mutex's level |
| HierarchicalMutexModel.HierarchicalMutex.Lock | include/playground/threading/hierarchical_mutex.hpp:14-18 | the new state is the one `LockStep` gives, and a violation throws with nothing changed |
| HierarchicalMutexModel.HierarchicalMutex.Unlock | include/playground/threading/hierarchical_mutex.hpp:20-26 | the new state is the one `UnlockStep` gives, and a violation throws with nothing changed |
| HierarchicalMutexModel.HierarchicalMutex.TryLock | include/playground/threading/hierarchical_mutex.hpp:28-35 | the result and the new state are the ones `TryLockStep` gives, and a violation throws with nothing changed |
| HierarchicalMutexModel.HierarchyExample | include/playground/threading/hierarchical_mutex.hpp:14-47 | locking at 10000 then 5000 succeeds; relocking at 10000 and unlocking the outer mutex first both throw; unlocking in reverse order brings the thread back to `ULONG_MAX` |
| SimpleThreadPoolModel.WorkerCount | src/threading/thread_pool.cpp:6-20 | at least one worker; the default `-1` gives the hardware concurrency when that is known; on an unknown machine an explicit count is kept, with 0 raised to 1 |
| SimpleThreadPoolModel.WorkerCountClamp | src/threading/thread_pool.cpp:11-16 | with a known hardware concurrency below 2^31, the count ends between 1 and `2 * hw`, an explicit count in that range is kept, and a larger one is cut to `2 * hw` |
| SimpleThreadPoolModel.WorkerCountWraps | src/threading/thread_pool.cpp:12 | with 2^31 + 1 hardware threads, `hw * 2` wraps to 2 in `unsigned`, so a request for 2^32 - 2 workers gets 2 |
| SimpleThreadPoolModel.ThreadPool.constructor | include/playground/multithread/thread_pool.h:24-28 | a new pool has no tasks, is not stopped, and starts `WorkerCount` workers |
| SimpleThreadPoolModel.ThreadPool.AddTask | include/playground/multithread/thread_pool.h:31-46 | a stopped pool throws a logic error and queues nothing; otherwise the task joins the back of the list; the stop flag is unchanged |
| SimpleThreadPoolModel.ThreadPool.WorkerStep | src/threading/thread_pool.cpp:24-32 | a worker waits on an empty running pool, leaves exactly when the list is empty and the pool stopped, and otherwise takes the oldest task off the list |
| SimpleThreadPoolModel.ThreadPool.Stop | src/threading/thread_pool.cpp:51-57 | the pool is stopped and the queued tasks stay |
| SimpleThreadPoolModel.ThreadPool.Abort | src/threading/thread_pool.cpp:59-67 | the pool is stopped and the task list is emptied |
| SimpleThreadPoolModel.ThreadPool.Shutdown | src/threading/thread_pool.cpp:44-49 | destroying the pool runs every queued task exactly once, oldest first, and leaves the list empty and the pool stopped |
| SimpleThreadPoolModel.ShutdownExample | src/threading/thread_pool.cpp:51-67 | two queued tasks both run in order at destruction; after `abort` nothing runs and adding throws |
| WorkStealingPoolModel.WorkStealingQueue.constructor | experiments/concurrent_algorithms/include/concurrent/thread_pool.hpp:50 | a new deque is empty |
| WorkStealingPoolModel.WorkStealingQueue.Push | experiments/concurrent_algorithms/include/concurrent/thread_pool.hpp:55-58 | the task joins at the back |
| WorkStealingPoolModel.WorkStealingQueue.Empty | experiments/concurrent_algorithms/include/concurrent/thread_pool.hpp:60-63 | the result is true exactly when no task is queued |
| WorkStealingPoolModel.WorkStealingQueue.TryPop | experiments/concurrent_algorithms/include/concurrent/thread_pool.hpp:65-74 | an empty deque gives nothing and is unchanged; otherwise the front (oldest) task is removed and returned |
| WorkStealingPoolModel.WorkStealingQueue.TrySteal | experiments/concurrent_algorithms/include/concurrent/thread_pool.hpp:76-85 | an empty deque gives nothing and is unchanged; otherwise the back (newest) task is removed and returned |
| WorkStealingPoolModel.DequeEndsExample | experiments/concurrent_algorithms/include/concurrent/thread_pool.hpp:55-85 | after pushing 1, 2, 3, the owner pops 1, a thief steals 3, and 2 is left |
| WorkStealingPoolModel.PoolThreadCount | experiments/concurrent_algorithms/include/concurrent/thread_pool.hpp:94-101 | the default `-1` gives the hardware concurrency, or 2 when it is unknown, and never 0; any other count is used as given |
| WorkStealingPoolModel.StealIndex | experiments/concurrent_algorithms/include/concurrent/thread_pool.hpp:163 | the scanned index is always a valid queue index |
| WorkStealingPoolModel.StealScanCoversAll | experiments/concurrent_algorithms/include/concurrent/thread_pool.hpp:161-169 | the steal scan of a worker visits every queue exactly once and its own queue last |
| WorkStealingPoolModel.FirstToSteal | experiments/concurrent_algorithms/include/concurrent/thread_pool.hpp:161-169 | the first step of the scan that meets a non-empty queue: every earlier step meets an empty one, and the end means every remaining queue is empty |
| WorkStealingPoolModel.BagUpdate | experiments/concurrent_algorithms/include/concurrent/thread_pool.hpp:174 | replacing one worker queue changes the bag of queued tasks by exactly that queue |
| WorkStealingPoolModel.BagEmpty | experiments/concurrent_algorithms/include/concurrent/thread_pool.hpp:174 | the worker queues hold no task exactly when every one of them is empty |
| WorkStealingPoolModel.AddTaskAdds | experiments/concurrent_algorithms/include/concurrent/thread_pool.hpp:120-132 | adding a task adds exactly that task to the tasks the pool holds |
| WorkStealingPoolModel.PopPoolConserves | experiments/concurrent_algorithms/include/concurrent/thread_pool.hpp:157-159 | taking the front of the global queue removes exactly that task from the pool |
| WorkStealingPoolModel.QueueConserves | experiments/concurrent_algorithms/include/concurrent/thread_pool.hpp:65-85 | a worker queue that loses one task makes the pool lose exactly that task |
| WorkStealingPoolModel.PopQueueConserves | experiments/concurrent_algorithms/include/concurrent/thread_pool.hpp:153-155 | taking the front of a worker queue removes exactly that task from the pool |
| WorkStealingPoolModel.StealQueueConserves | experiments/concurrent_algorithms/include/concurrent/thread_pool.hpp:76-85 | stealing the back of a worker queue removes exactly that task from the pool |
| WorkStealingPoolModel.RunPendingConserves | experiments/concurrent_algorithms/include/concurrent/thread_pool.hpp:134-142 | a call that finds nothing changes nothing; otherwise the task taken plus what is left is what the pool held, so no task is lost or duplicated |
| WorkStealingPoolModel.RunPendingIdle | experiments/concurrent_algorithms/include/concurrent/thread_pool.hpp:134-142 | a call finds nothing exactly when the whole pool is empty |
| WorkStealingPoolModel.ThreadPool.Items | experiments/concurrent_algorithms/include/concurrent/thread_pool.hpp:174 | there is one item sequence per worker queue |
| WorkStealingPoolModel.ThreadPool.constructor | experiments/concurrent_algorithms/include/concurrent/thread_pool.hpp:94-115 | the pool has `PoolThreadCount` fresh, empty worker queues and an empty global queue, and `done_` is clear |
| WorkStealingPoolModel.ThreadPool.AddTask | experiments/concurrent_algorithms/include/concurrent/thread_pool.hpp:120-132 | the task goes to the back of the caller's own queue when it has one, otherwise to the back of the global queue |
| WorkStealingPoolModel.ThreadPool.PopFrom | experiments/concurrent_algorithms/include/concurrent/thread_pool.hpp:65-74 | the front of worker queue `k` is taken if there is one; the other queues are untouched |
| WorkStealingPoolModel.ThreadPool.StealFrom | experiments/concurrent_algorithms/include/concurrent/thread_pool.hpp:76-85 | the back of worker queue `k` is taken if there is one; the other queues are untouched |
| WorkStealingPoolModel.ThreadPool.PopTaskFromLocal | experiments/concurrent_algorithms/include/concurrent/thread_pool.hpp:153-155 | a caller with a non-empty own queue takes its front task; any other caller gets nothing and changes nothing |
| WorkStealingPoolModel.ThreadPool.PopTaskFromPool | experiments/concurrent_algorithms/include/concurrent/thread_pool.hpp:157-159 | the global queue's front task is taken if there is one; otherwise nothing changes |
| WorkStealingPoolModel.ThreadPool.PopTaskFromOtherThread | experiments/concurrent_algorithms/include/concurrent/thread_pool.hpp:161-169 | the loop takes the newest task of the first non-empty queue in scan order, or finds nothing and changes nothing |
| WorkStealingPoolModel.ThreadPool.RunPendingTasks | experiments/concurrent_algorithms/include/concurrent/thread_pool.hpp:134-142 | the task and the new state are the ones the reference step gives: own queue first, then the global queue, then a steal, at most one task |
| WorkStealingPoolModel.ThreadPool.StartWorker | experiments/concurrent_algorithms/include/concurrent/thread_pool.hpp:145-147 | a starting worker records its own index in the one shared local-queue slot |
| WorkStealingPoolModel.ThreadPool.AddTaskShared | experiments/concurrent_algorithms/include/concurrent/thread_pool.hpp:126-130 | as written: the route is the shared local-queue slot, whichever thread calls |
| WorkStealingPoolModel.ThreadPool.Shutdown | experiments/concurrent_algorithms/include/concurrent/thread_pool.hpp:116 | the destructor sets `done_` and leaves the queued tasks where they are |
| WorkStealingPoolModel.SharedLocalQueueExample | experiments/concurrent_algorithms/include/concurrent/thread_pool.hpp:178-179 | after two workers start, a task added by a thread that owns no queue lands in worker 1's queue |
| WorkStealingPoolModel.OwnLocalQueueExample | experiments/concurrent_algorithms/include/concurrent/thread_pool.hpp:126-130 | with the caller's own route, a task from a thread that owns no queue goes to the global queue |
| SortModel.Lower | experiments/concurrent_algorithms/include/concurrent/sort.hpp:32-39 | the lower chunk holds only elements below the pivot and is no longer than the rest of the list |
| SortModel.Higher | experiments/concurrent_algorithms/include/concurrent/sort.hpp:32-34 | what stays in the list after the split holds only elements not below the pivot |
| SortModel.PartitionMultiset | experiments/concurrent_algorithms/include/concurrent/sort.hpp:32-39 | the split around the pivot loses and adds no element |
| SortModel.QuickSort | experiments/concurrent_algorithms/include/concurrent/sort.hpp:22-57 | the result is in non-descending order and is a permutation of the input; lists of fewer than two elements come back unchanged |
| SortModel.SortedUnique | experiments/concurrent_algorithms/include/concurrent/sort.hpp:22-57 | two sorted permutations of the same elements are equal, so the result does not depend on how the split orders each part |
| SortModel.SortsTo | experiments/concurrent_algorithms/tests/test_sort.cpp:34-57 | sorting gives exactly the sorted permutation of the input, which is what every value-level test of the pool-based `SorterThreadPool` compares against; the same inputs are used here for this `Sorter` |
| SortModel.TwentyExample | experiments/concurrent_sort/concurrent_sort.cpp:84-88 | the 20 values sorted in `func` come out as 1 to 20 |
| SortModel.DuplicatesExample | experiments/concurrent_algorithms/tests/test_sort.cpp:51-57 | [3, 1, 2, 3, 2, 1], an input from the tests of the pool-based `SorterThreadPool`, sorts to [1, 1, 2, 2, 3, 3] |
| SortModel.MaxThreadCount | experiments/concurrent_algorithms/include/concurrent/sort.hpp:13 | the thread limit is one less than the hardware concurrency, and an unknown concurrency (0) wraps to `UINT_MAX` |
| SortModel.Sorter.constructor | experiments/concurrent_algorithms/include/concurrent/sort.hpp:12-14 | a new sorter has an empty chunk stack |
| SortModel.Sorter.DoSort | experiments/concurrent_algorithms/include/concurrent/sort.hpp:22-57 | the method returns `QuickSort` of its input, so a sorted permutation, and leaves the chunk stack as it found it |
| SortModel.Sorter.TrySortChunk | experiments/concurrent_algorithms/include/concurrent/sort.hpp:67-71 | with no chunk waiting nothing happens; otherwise the top chunk is popped and its sorted list is the value its promise receives |
| SortModel.SorterExample | experiments/concurrent_algorithms/tests/test_sort.cpp:51-57 | a sorter given [3, 1, 2, 3, 2, 1], an input from the tests of the pool-based `SorterThreadPool`, returns [1, 1, 2, 2, 3, 3] and leaves no chunk behind |
| LockfreeStackModel.LockfreeStack.constructor | include/playground/threading/lockfree_stack.hpp:33 | a new stack has a null head, holds nothing and has freed nothing |
| LockfreeStackModel.LockfreeStack.Push | include/playground/threading/lockfree_stack.hpp:9-13 | the pushed value is on top of the old contents; the new head is a fresh node whose `next_` is the old head |
| LockfreeStackModel.LockfreeStack.Pop | include/playground/threading/lockfree_stack.hpp:15-24 | an empty stack gives null and is unchanged; otherwise the top value is returned, the rest of the contents remain, the head moves to the old head's `next_` and exactly the old head is freed |
| LockfreeStackModel.LifoExample | include/playground/threading/lockfree_stack.hpp:9-24 | popping an empty stack gives null; after pushing 1, 2, 3 the pops give 3, 2, 1, then null |
| SharedPtrStackModel.LockfreeStackSharedPtr.constructor | include/playground/threading/lockfree_stack_shared_ptr.hpp:18 | a new stack has a null head and holds nothing |
| SharedPtrStackModel.LockfreeStackSharedPtr.Push | include/playground/threading/lockfree_stack_shared_ptr.hpp:21-26 | the pushed value is on top of the old contents; the new head is a fresh node whose `next_` is the old head |
| SharedPtrStackModel.LockfreeStackSharedPtr.Detach | include/playground/threading/lockfree_stack_shared_ptr.hpp:29-36 | the head moves to the old head's `next_`; the old node is off the stack, still alive and its `next_` is reset to null; its value is the old top |
| SharedPtrStackModel.LockfreeStackSharedPtr.Destroy | include/playground/threading/lockfree_stack_shared_ptr.hpp:38 | when the last owner of a node off the stack goes away, exactly that node is freed and the stack is unchanged |
| SharedPtrStackModel.LockfreeStackSharedPtr.Pop | include/playground/threading/lockfree_stack_shared_ptr.hpp:28-39 | an empty stack gives null and is unchanged; otherwise the top value is returned, the rest remains and exactly the old head is freed |
| SharedPtrStackModel.LockfreeStackSharedPtr.Clear | include/playground/threading/lockfree_stack_shared_ptr.hpp:19 | the destructor leaves the stack empty, with every node it held freed |
| SharedPtrStackModel.LifoExample | tests/test_lockfree_stack.cpp:25-43 | popping an empty stack gives null; after pushing 1, 2, 3 the pops give 3, 2, 1, then null |
| ReferenceCountingStackModel.ReleasedFromZero | include/playground/threading/lockfree_stack_reference_counting.hpp:42-43 | giving back `n` references from an internal count of 0 wraps below zero to 2^32 - n |
| ReferenceCountingStackModel.ReleasedFrom | include/playground/threading/lockfree_stack_reference_counting.hpp:42-43 | giving back at most `c` references from `c` counts down without wrapping |
| ReferenceCountingStackModel.SplitCountFreesOnce | include/playground/threading/lockfree_stack_reference_counting.hpp:31-47 | whatever the order in which the winner settles its count and the losers give their references back, the node is freed exactly once, by the last thread to let go of it |
| ReferenceCountingStackModel.PushQuiescent | include/playground/threading/lockfree_stack_reference_counting.hpp:12-20 | a pushed node with internal count 0, under a head with count 1, keeps the stack's counts settled and puts its value on top |
| ReferenceCountingStackModel.PopQuiescent | include/playground/threading/lockfree_stack_reference_counting.hpp:31-40 | detaching and freeing the settled head node leaves the nodes below settled, with the values below the top |
| ReferenceCountingStackModel.LockfreeStackReferenceCounting.constructor | include/playground/threading/lockfree_stack_reference_counting.hpp:9 | a new stack has a null head with count 0 and holds nothing |
| ReferenceCountingStackModel.LockfreeStackReferenceCounting.Push | include/playground/threading/lockfree_stack_reference_counting.hpp:12-20 | the pushed value is on top; the new head has count 1 and is a fresh node with internal count 0, whose `next_` is the old counted head |
| ReferenceCountingStackModel.LockfreeStackReferenceCounting.IncreaseHeadCount | include/playground/threading/lockfree_stack_reference_counting.hpp:68-77 | the head's external count goes up by one, modulo 2^32, and the caller's snapshot is the new head; nothing else changes |
| ReferenceCountingStackModel.LockfreeStackReferenceCounting.TryDetach | include/playground/threading/lockfree_stack_reference_counting.hpp:26-47 | a snapshot equal to the head detaches the node, moves its value out and settles its internal count, freeing it exactly when the count becomes 0; a stale one gives its reference back, freeing the node exactly when the count was 1 |
| ReferenceCountingStackModel.LockfreeStackReferenceCounting.Pop | include/playground/threading/lockfree_stack_reference_counting.hpp:22-49 | a thread alone on an empty stack gets null with only the head count raised; otherwise it gets the top value, the rest remains and exactly the old head is freed at once |
| ReferenceCountingStackModel.LockfreeStackReferenceCounting.Clear | include/playground/threading/lockfree_stack_reference_counting.hpp:10 | the destructor leaves the stack empty, with every node it held freed |
| ReferenceCountingStackModel.LifoExample | tests/test_lockfree_stack.cpp:25-43 | popping an empty stack gives null; after pushing 1, 2, 3 the pops give 3, 2, 1, then null |
| ReferenceCountingStackModel.WinnerFirstExample | include/playground/threading/lockfree_stack_reference_counting.hpp:31-47 | with two poppers, the winner settling first leaves the node alive and the loser's give-back frees it |
| ReferenceCountingStackModel.LoserFirstExample | include/playground/threading/lockfree_stack_reference_counting.hpp:31-47 | with the loser first, the count wraps to 2^32 - 1 and the winner's settlement brings it to 0 and frees the node |
| SignedCountStackModel.SignedAgreesWithUnsigned | include/playground/threading/lockfree_stack.h:56-62 | while the `int` counts stay in range, the signed stack and the `unsigned` one compute the same counts modulo 2^32 and free a node at the same step |
| SignedCountStackModel.LockFreeStack.constructor | include/playground/threading/lockfree_stack.h:20 | a new stack has a null head with count 0 and holds nothing |
| SignedCountStackModel.LockFreeStack.Push | include/playground/threading/lockfree_stack.h:37-44 | the pushed value is on top; the new head has count 1 and is a fresh node with internal count 0, whose `next` is the old counted head |
| SignedCountStackModel.LockFreeStack.IncreaseHeadCount | include/playground/threading/lockfree_stack.h:23-30 | the head's external count goes up by one and the caller's snapshot is the new head; nothing else changes |
| SignedCountStackModel.LockFreeStack.TryDetach | include/playground/threading/lockfree_stack.h:48-63 | a snapshot equal to the head detaches the node and settles its signed internal count, freeing it exactly when the count becomes 0; a stale one gives its reference back, freeing the node exactly when the count was 1 |
| SignedCountStackModel.LockFreeStack.Pop | include/playground/threading/lockfree_stack.h:45-65 | a thread alone on an empty stack gets null with only the head count raised; otherwise it gets the top value, the rest remains and exactly the old head is freed |
| SignedCountStackModel.LockFreeStack.Clear | include/playground/threading/lockfree_stack.h:33-36 | the destructor leaves the stack empty, with every node it held freed |
| SignedCountStackModel.LifoExample | include/playground/threading/lockfree_stack.h:37-65 | popping an empty stack gives null; after pushing 1, 2, 3 the pops give 3, 2, 1, then null |
| SignedCountStackModel.LoserFirstExample | include/playground/threading/lockfree_stack.h:53-63 | with two poppers and the loser first, the signed count goes to -1 and the winner's settlement brings it to 0 and frees the node |
| HazardPointerStackModel.HazardTable.constructor | include/playground/threading/lockfree_stack_hazard_pointer.hpp:9-15 | the table has `max_hazard_pointers` (100) slots, each without owner and with a null pointer |
| HazardPointerStackModel.HazardTable.Acquire | include/playground/threading/lockfree_stack_hazard_pointer.hpp:19-32 | the caller claims the first slot without owner and keeps its pointer; when every slot is owned the result is the `runtime_error` and no slot changes |
| HazardPointerStackModel.HazardTable.Release | include/playground/threading/lockfree_stack_hazard_pointer.hpp:33-36 | the slot's pointer and owner are cleared, so the slot can be claimed again; no other slot changes |
| HazardPointerStackModel.HazardTable.Publish | include/playground/threading/lockfree_stack_hazard_pointer.hpp:78 | the slot now protects the given pointer; no other slot changes |
| HazardPointerStackModel.HazardTable.OutstandingHazardPointersFor | include/playground/threading/lockfree_stack_hazard_pointer.hpp:112-119 | the result is true exactly when some slot points at the node |
| HazardPointerStackModel.Requeued | include/playground/threading/lockfree_stack_hazard_pointer.hpp:123-134 | a sweep of the reclaim list never lengthens it |
| HazardPointerStackModel.RequeuedMembers | include/playground/threading/lockfree_stack_hazard_pointer.hpp:123-134 | after a sweep the list holds exactly the old entries that some slot still points at |
| HazardPointerStackModel.RequeuedDistinct | include/playground/threading/lockfree_stack_hazard_pointer.hpp:123-139 | a sweep of a list without repeated entries leaves a list without repeated entries |
| HazardPointerStackModel.RequeuedFront | include/playground/threading/lockfree_stack_hazard_pointer.hpp:121-139 | an entry added at the front of the list is, if it stays protected, at the back after the sweep |
| HazardPointerStackModel.SweptHeap | include/playground/threading/lockfree_stack_hazard_pointer.hpp:123-134 | the sweep deletes exactly the entries no slot points at; every other node stays live |
| HazardPointerStackModel.SweptHeapFrees | include/playground/threading/lockfree_stack_hazard_pointer.hpp:123-134 | the sweep frees exactly the unprotected entries and leaves every surviving node's link and value as they were, so no node some slot points at is freed |
| HazardPointerStackModel.SweptHeapFront | include/playground/threading/lockfree_stack_hazard_pointer.hpp:88-93 | deleting an unprotected old head at once and then sweeping is the same as sweeping it with the list |
| HazardPointerStackModel.Sweep | include/playground/threading/lockfree_stack_hazard_pointer.hpp:124-133 | the loop leaves as the reclaim list and the heap exactly what the sweep functions give |
| HazardPointerStackModel.RetireKeepsStack | include/playground/threading/lockfree_stack_hazard_pointer.hpp:85-94 | retiring the old head keeps the rest of the stack with its values, leaves a valid reclaim list and loses track of no live node |
| HazardPointerStackModel.RetireReclaim | include/playground/threading/lockfree_stack_hazard_pointer.hpp:88-93 | after the sweep, the new reclaim list holds only live nodes off the stack, and every live node is on the stack or on that list |
| HazardPointerStackModel.RetireRest | include/playground/threading/lockfree_stack_hazard_pointer.hpp:85-94 | the nodes below the retired head keep their links and values |
| HazardPointerStackModel.LockfreeStackHazardPointer.constructor | include/playground/threading/lockfree_stack_hazard_pointer.hpp:63 | a new stack has a null head and an empty reclaim list |
| HazardPointerStackModel.LockfreeStackHazardPointer.Push | include/playground/threading/lockfree_stack_hazard_pointer.hpp:65-69 | the pushed value is on top of the old contents; the new head is a fresh node whose `next_` is the old head; the reclaim list is untouched |
| HazardPointerStackModel.LockfreeStackHazardPointer.ProtectHead | include/playground/threading/lockfree_stack_hazard_pointer.hpp:74-80 | the caller's slot publishes the head it returns; no other slot changes |
| HazardPointerStackModel.LockfreeStackHazardPointer.AddToReclaimList | include/playground/threading/lockfree_stack_hazard_pointer.hpp:121-139 | the node goes on the front of the reclaim list; the stack is unchanged |
| HazardPointerStackModel.LockfreeStackHazardPointer.DeleteNodesWithNoHazards | include/playground/threading/lockfree_stack_hazard_pointer.hpp:123-134 | the reclaim list and the heap become the result of sweeping the old list against the pointers in the table |
| HazardPointerStackModel.LockfreeStackHazardPointer.Pop | include/playground/threading/lockfree_stack_hazard_pointer.hpp:71-97 | an empty stack gives null and changes nothing but clearing the caller's slot; otherwise the top value is returned, the rest remains, the caller's slot ends cleared, and of the old head and the old reclaim list exactly the entries no slot points at are deleted while the others form the new list |
| HazardPointerStackModel.LockfreeStackHazardPointer.Unlink | include/playground/threading/lockfree_stack_hazard_pointer.hpp:81-94 | on a non-empty stack the head moves on, the caller's slot is cleared, the top value is returned, and the old head and reclaim list are swept as in `Pop` |
| HazardPointerStackModel.LockfreeStackHazardPointer.Retire | include/playground/threading/lockfree_stack_hazard_pointer.hpp:87-93 | the old head's value is moved out; the node is deleted at once or put on the reclaim list, and the list is swept |
| HazardPointerStackModel.HazardsCleared | include/playground/threading/lockfree_stack_hazard_pointer.hpp:33-36 | a table whose slots all hold null protects no node |
| HazardPointerStackModel.AcquireExample | include/playground/threading/lockfree_stack_hazard_pointer.hpp:19-36 | two threads get slots 0 and 1; once the first releases its slot, a third thread gets slot 0 |
| HazardPointerStackModel.ExhaustionExample | include/playground/threading/lockfree_stack_hazard_pointer.hpp:29-31 | with all 100 slots claimed, one more thread gets the `runtime_error` |
| HazardPointerStackModel.LifoExample | tests/test_lockfree_stack.cpp:25-43 | popping an empty stack gives null; after pushing 1, 2, 3 the pops give 3, 2, 1, then null |
| HazardPointerStackModel.DeferredExample | include/playground/threading/lockfree_stack_hazard_pointer.hpp:88-89 | a node that another thread's slot points at when it is popped is put on the reclaim list, not deleted |
| HazardPointerStackModel.EmptyPopExample | include/playground/threading/lockfree_stack_hazard_pointer.hpp:81-96 | a pop of the empty stack sweeps nothing, so the deferred node stays on the list |
| HazardPointerStackModel.LaterSweepExample | include/playground/threading/lockfree_stack_hazard_pointer.hpp:93 | once no slot points at it, the deferred node is deleted by the next non-empty pop's sweep |
| DeleteListStackModel.FreeNode | include/playground/threading/lockfree_statck_delete_list.hpp:57 | `delete node` frees exactly that node, or nothing for null, and leaves every other node untouched |
| DeleteListStackModel.ChainNodes | include/playground/threading/lockfree_statck_delete_list.hpp:67-82 | the nodes of a list are live, non-null and listed once |
| DeleteListStackModel.ChainIsSegment | include/playground/threading/lockfree_statck_delete_list.hpp:76-82 | a non-empty list ends at a node whose `next_` is null |
| DeleteListStackModel.ChainPrefix | include/playground/threading/lockfree_statck_delete_list.hpp:67-74 | each node reached by the deletion walk is live and has not been reached before |
| DeleteListStackModel.DeleteStep | include/playground/threading/lockfree_statck_delete_list.hpp:69-73 | after the first nodes of a list are deleted, the next one is still live and still points at its successor, so the walk can read it before deleting it |
| DeleteListStackModel.DeleteNodes | include/playground/threading/lockfree_statck_delete_list.hpp:67-74 | walking the list deletes every node of it exactly once, in order, and nothing else |
| DeleteListStackModel.FindLast | include/playground/threading/lockfree_statck_delete_list.hpp:77-80 | the walk stops at the last node of the list |
| DeleteListStackModel.PushShape | include/playground/threading/lockfree_statck_delete_list.hpp:15-21 | a pushed node puts its value on top and keeps the stack and the pending list apart |
| DeleteListStackModel.DetachHead | include/playground/threading/lockfree_statck_delete_list.hpp:25-33 | unlinking the top node and moving its value out leaves the rest of the stack, with the node off both the stack and the pending list |
| DeleteListStackModel.ReclaimNode | include/playground/threading/lockfree_statck_delete_list.hpp:57 | freeing the popped node keeps the stack, its values and the pending list |
| DeleteListStackModel.ReclaimPending | include/playground/threading/lockfree_statck_delete_list.hpp:49-52 | freeing the claimed pending list keeps the stack, its values and the popped node |
| DeleteListStackModel.KeepStack | include/playground/threading/lockfree_statck_delete_list.hpp:52-57 | a heap that keeps the stack's nodes and leaves live nodes untouched keeps the stack and its values |
| DeleteListStackModel.DeferNode | include/playground/threading/lockfree_statck_delete_list.hpp:59-61 | chaining the popped node onto the front of the pending list keeps the stack and its values |
| DeleteListStackModel.Popped | include/playground/threading/lockfree_statck_delete_list.hpp:31-34 | the popped node counts as a node exactly when the stack was not empty |
| DeleteListStackModel.ReclaimFrees | include/playground/threading/lockfree_statck_delete_list.hpp:46-65 | deleting the pending list and then the popped node frees exactly those nodes; deleting the popped node alone frees just it; chaining it frees nothing |
| DeleteListStackModel.IncDecWrap | include/playground/threading/lockfree_statck_delete_list.hpp:24-63 | `fetch_add(1)` and `fetch_sub(1)` on the `unsigned` counter are addition and subtraction modulo 2^32, and each undoes the other |
| DeleteListStackModel.ArriveWrap | include/playground/threading/lockfree_statck_delete_list.hpp:24 | `n` threads entering add `n` to the counter modulo 2^32 |
| DeleteListStackModel.ClaimWrap | include/playground/threading/lockfree_statck_delete_list.hpp:47-53 | a thread that read 1 finds 1 at its decrement exactly when no thread entered in between, modulo 2^32 |
| DeleteListStackModel.EnterLeave | include/playground/threading/lockfree_statck_delete_list.hpp:23-65 | the counter reads 1 exactly when it was 0 on entry, and a thread leaves the counter where it found it, plus any threads that came in after it read 1 |
| DeleteListStackModel.LockfreeStackDeleteList.constructor | include/playground/threading/lockfree_statck_delete_list.hpp:12-13 | a new stack has a null head, a counter of 0 and an empty pending list |
| DeleteListStackModel.LockfreeStackDeleteList.Push | include/playground/threading/lockfree_statck_delete_list.hpp:15-21 | the pushed value is on top of the old contents; the new head is a fresh node whose `next_` is the old head; the pending list and the counter are untouched |
| DeleteListStackModel.LockfreeStackDeleteList.EnterPop | include/playground/threading/lockfree_statck_delete_list.hpp:24 | the counter goes up by one, modulo 2^32 |
| DeleteListStackModel.LockfreeStackDeleteList.Arrivals | include/playground/threading/lockfree_statck_delete_list.hpp:24 | `n` other threads entering raise the counter by `n` |
| DeleteListStackModel.LockfreeStackDeleteList.LeavePop | include/playground/threading/lockfree_statck_delete_list.hpp:51-63 | the decrement returns the counter it found and lowers it by one, modulo 2^32 |
| DeleteListStackModel.LockfreeStackDeleteList.ChainPendingNodesRange | include/playground/threading/lockfree_statck_delete_list.hpp:84-89 | the segment goes on the front of the pending list, its last node linked to the old front |
| DeleteListStackModel.LockfreeStackDeleteList.ChainPendingNodes | include/playground/threading/lockfree_statck_delete_list.hpp:76-82 | a whole list goes on the front of the pending list in its own order, its last node linked to the old front |
| DeleteListStackModel.LockfreeStackDeleteList.ChainPendingNode | include/playground/threading/lockfree_statck_delete_list.hpp:91 | one node goes on the front of the pending list |
| DeleteListStackModel.LockfreeStackDeleteList.TryReclaim | include/playground/threading/lockfree_statck_delete_list.hpp:46-65 | with the counter at 1 the pending list is claimed and freed with the popped node when no thread came in, or chained back while only the popped node is freed; otherwise the popped node joins the pending list; the counter is decremented once and the stack is untouched |
| DeleteListStackModel.LockfreeStackDeleteList.DeferPopped | include/playground/threading/lockfree_statck_delete_list.hpp:58-64 | the popped node, if any, joins the front of the pending list and the counter is decremented |
| DeleteListStackModel.LockfreeStackDeleteList.ReclaimClaimed | include/playground/threading/lockfree_statck_delete_list.hpp:47-57 | the claimed list is freed together with the popped node when the decrement finds 1, or chained back in its order with only the popped node freed |
| DeleteListStackModel.LockfreeStackDeleteList.DeleteClaimed | include/playground/threading/lockfree_statck_delete_list.hpp:51-57 | every claimed node and then the popped node are freed, and the pending list is empty |
| DeleteListStackModel.LockfreeStackDeleteList.ReturnClaimed | include/playground/threading/lockfree_statck_delete_list.hpp:53-57 | the claimed nodes are back on the pending list in their order, and only the popped node is freed |
| DeleteListStackModel.LockfreeStackDeleteList.Pop | include/playground/threading/lockfree_statck_delete_list.hpp:23-36 | an empty stack gives null; otherwise the top value, with the rest remaining; a thread alone frees its node and the pending list unless others came in, a thread not alone defers its node, and the counter ends as it started plus the threads still inside |
| DeleteListStackModel.LockfreeStackDeleteList.TakeTop | include/playground/threading/lockfree_statck_delete_list.hpp:25-33 | the top node, if any, is unlinked and its value moved out; it stays live, and on an empty stack nothing changes |
| DeleteListStackModel.LifoExample | tests/test_lockfree_stack.cpp:25-43 | popping an empty stack gives null; after pushing 1, 2, 3 the pops give 3, 2, 1, then null, with nothing left pending |
| DeleteListStackModel.BusyExample | include/playground/threading/lockfree_statck_delete_list.hpp:58-64 | a node popped while another thread is inside `Pop` is deferred, and freed when that thread leaves alone |
| DeleteListStackModel.ArrivalExample | include/playground/threading/lockfree_statck_delete_list.hpp:47-55 | a claimed list is chained back when a thread enters before the decrement, and freed by the next thread to leave alone |
| Arena.Heap.Alloc | include/playground/threading/lockfree_stack.hpp:10 | `new` gives a fresh address, not live and never freed, holding the value and the given `next_`; the other nodes and the freed set are kept |
| Arena.Heap.Delete | include/playground/threading/lockfree_stack.hpp:21 | `delete` takes exactly that node out of the live ones and records it as freed |
| Arena.ValuesAt | include/playground/threading/lockfree_stack.hpp:19-20 | the stack's value at each position is the `data_` held by the node at that position, which is what a pop of that node returns |
| Arena.StackPush | include/playground/threading/lockfree_stack.hpp:9-13 | a new node linked to the old head makes a stack one longer whose values are the new value followed by the old ones |
| Arena.StackTail | include/playground/threading/lockfree_stack.hpp:16-22 | below the head of a non-empty stack is the stack of the remaining nodes, holding the values after the top one |
| Arena.StackFrame | include/playground/threading/lockfree_stack.hpp:19-22 | a stack keeps its shape and values under any change that keeps its nodes |
| Arena.SegmentSplice | include/playground/threading/lockfree_statck_delete_list.hpp:84-89 | linking the last node of a segment to the front of a list it shares no node with gives one list |
| Arena.DeleteAll | include/playground/threading/lockfree_statck_delete_list.hpp:67-74 | deleting a list of distinct live nodes takes exactly those nodes out of the live ones |
| Arena.DeleteAllFrees | include/playground/threading/lockfree_statck_delete_list.hpp:67-74 | deleting a list of nodes records exactly those nodes as freed and leaves every node that stays live untouched |

## Left out

- Real concurrency is not modelled: thread interleavings, memory orders, `std::mutex`/`shared_mutex` locking, condition variables, `std::thread` creation and joining, `yield`, and the worker loops that spin on `done_` or `end_of_data_`. Every operation is one thread's view of the state.
- Compare-and-swap retry loops are modelled by their first pass, which succeeds when no other thread moves the head. For the split-count stacks, a lost race is modelled as a separate step (`TryDetach` with a stale snapshot).
- ABA is not modelled: arena addresses are never reused.
- Futures, promises and `std::async` are not modelled as objects:
  - a promise's value is what `TrySortChunk` returns;
  - a deferred `async` half runs when its result is asked for;
  - the `packaged_task` futures of `thread_pool.h` are left out.
- `std::thread::hardware_concurrency()` is a parameter.
- `SharedPtrAtomicLockFreeRuntimeProbe` is a platform query and is not modelled. The atomic `shared_ptr` loads and stores are plain reads and writes.
- Only the effect of `shared_ptr` ownership is modelled: a node is destroyed when its last owner goes away. The reference counts themselves are not modelled.
- Exceptions are modelled only where the code throws them itself:
  - the hierarchy violation in `HierarchicalMutex`;
  - the `runtime_error` for an exhausted hazard-pointer table.

  `Finder` also models the `future_error` that `set_value` throws on an already satisfied promise, and swallows it as the source does.

  Exceptions thrown by element comparisons, user callables or tasks are not modelled. So neither is their capture in promises (`partial_sum.hpp`, `find.hpp`) with the `std::cerr` logging, nor the `try`/`catch` around a task in the simple pool's worker.
- Elements are integers where the source is generic over arithmetic types. The floating-point partial-sum test is not modelled.
- `PartialSum.PartialSum`, `PartialSum.ChunkProcess`, `ParallelAccumulateModel.ParallelAccumulate`, `ParallelAccumulateModel.AccumulateBlock` and the `Sums` module add elements as unbounded mathematical integers. Overflow of the element type `T` is not modelled: for a signed `T` such as the `int` of the tests it is undefined behaviour, and for an unsigned `T` it would wrap modulo 2^N.
- `FindModel.Find`: the finders run one after another in block order, so the first block with a match reports it and the result is the first match. Under real threads any finder that matches first wins at find.hpp:19-21. The program then promises only that a result before `last` holds the value, that the result is `last` exactly when nothing matches, and that it is the first match when there is a single block (25 elements or fewer).
- `FindModel.FindRecursiveCore`: the upper half started by `std::async` at find.hpp:95-97 is modelled as deferred until line 100 asks for it. Under the default launch policy it may run at once, set `done` and stop the lower scan, so the program promises only a matching index, or the end exactly when nothing matches; the first match is guaranteed only below 50 elements, where the scan is sequential.
- `FindModel.FindRecursive`: the first-match result holds under the same deferred schedule as `FindModel.FindRecursiveCore`.
- `std::partition` is modelled as a stable split (`SortModel.Lower`/`Higher`). The real partition may reorder each part. `SortModel.SortedUnique` shows that the sorted result does not depend on that order.
- The `DataToReclaim` records of the hazard-pointer stack are not separate objects: the reclaim list holds the node addresses themselves, and the type-erased deleter is a plain `delete`.
- The `thread_local` `HpOwner` of the hazard-pointer stack is not modelled. Its slot index is a parameter of `Pop`, claimed with `HazardTable.Acquire` and given back with `HazardTable.Release`.
- Signed overflow of the `int` counts in `lock_free_stack` (lockfree_stack.h) is undefined behaviour and is not modelled. `SignedCountStackModel.SignedAgreesWithUnsigned` states the range in which the signed and unsigned stacks agree.
- The default-initialised heads of `LockfreeStack` and `lock_free_stack` are taken to start null with count 0. Neither class gives them an initial value.
- `LockfreeStack` and `LockfreeStackDeleteList` have no destructor, so the nodes still on them at destruction are never freed. The model has no `Clear` for them.
- A lookup table with 0 buckets is not modelled (its `FindBucket` would take `% 0`). The members that index a bucket require at least one. The source's `int bucket_num` is narrowed to a `nat` in `LookupTableModel.LookupTable.constructor`: a negative count, for which `std::vector` would throw, is not modelled.
- `ThreadsafeQueueModel.ThreadsafeQueue.WaitAndPop`: it is modelled from the moment the queue is non-empty, so it requires that instead of waiting. The overload that returns a `shared_ptr` has the same effect and is not modelled separately.
- The `wait_for_data` predicate at threadsafe_queue.hpp:76 has no `return` statement. The model uses the evident predicate, that the queue is non-empty.
- `try_pop()` at threadsafe_queue.hpp:38 writes `return false;` in a function returning `std::shared_ptr<T>`. Since C++11 `false` is not a null-pointer constant, so some compilers reject the line and others only warn. `ThreadsafeQueueModel.ThreadsafeQueue.TryPop` returns nothing there, the evident intent.
- `DeleteListStackModel.LockfreeStackDeleteList.Pop`: its contract does not list the nodes it frees. `TryReclaim` states them as heap equations, and `DeleteListStackModel.ReclaimFrees` says which nodes those equations free.
- `ThreadsafeListModel.RemovedIf`: its own contract states only a length bound. `RemovedIfMembers` and `RemovedIfNone` state what it keeps.
- `SimpleThreadPoolModel.WorkerCount`: `hw * 2` is computed in `unsigned` as the source does. `WorkerCountWraps` shows the wrap-around; no corrected version is modelled, because it needs more than 2^31 hardware threads.
- The rest of the repository is not part of this model: the event-loop skeleton, the coroutine demos, the thread RAII and interrupt wrappers, `rw_lock.h`, the non-compiling drafts, the benchmarks and the scratch files.

## Findings

| source | as written | input that shows it | evidently intended | confidence | as-written member | corrected member |
|---|---|---|---|---|---|---|
| include/playground/threading/threadsafe_stack.hpp:35 | `Pop(T& value)` assigns `value` to itself, so the popped top is discarded and the out-parameter keeps its old value | push 7, then `Pop(value)` with `value == 0`: the call returns `true` and `value` is still 0 | `value` receives the popped top | not executed | ThreadsafeStackModel.PopIntoLosesValue | ThreadsafeStackModel.ThreadsafeStack.PopIntoCorrected |
| experiments/concurrent_algorithms/include/concurrent/thread_pool.hpp:178-179 | `local_queue_` and `local_queue_index_` are `inline static`, not `thread_local`, so every thread shares one local-queue slot | start workers 0 and 1, then add a task from a thread that owns no queue: it lands in worker 1's queue | a thread without a queue of its own adds to the global queue | not executed | WorkStealingPoolModel.SharedLocalQueueExample | WorkStealingPoolModel.OwnLocalQueueExample |
