# Verification of the storage, domain and command-handling packages

A Dafny model of the parts of the repository whose correctness depends on more than one function, and
proofs of what they promise. `dafny verify dfyconfig.toml` checks the whole project.

## What is modelled

**The priority queue store.** `PriorityQueueStore` holds the two tables as maps and follows the source
operation by operation: queue rows with `indexInPriorityQueue` and an optional lock, item rows keyed by
discriminator and `indexInQueue`. Its ghost field `view` is the abstract state of `PriorityQueueSpec`, a
heap of queues, a lock per queue and a FIFO sequence per discriminator; `PriorityQueueTables` ties the
two. Every method is proved against this state in two ways:

- for any clock and for any row that the unordered join may return, as one step of the state machine
  of `PriorityQueueProtocol`, in which the heap may end up in any order. `PriorityQueueRuns` proves
  exclusion, fencing, fidelity and conservation over every run of this machine;
- at a fixed time (`clock == old(clock)`), and where the join returns the head row first
  (`headRowFirst`), as one exact function of the old state. `HeapRepair` proves what these functions do
  to heap order, and `HeapRuns` what that means for whole runs of them.

Heap order is a claim about one instant: an expiring lock lowers a priority silently, and
`ExpiryKeepsHeapIff` says exactly when heap order survives that. `acknowledge` and
the removal of a queue only repair downwards. They, and `defer` with them, keep heap order if and only
if a guard on the state before the call holds (`AcknowledgeFits`, `RefillFits`), and
`PriorityQueueExamples` computes a state, four calls from the empty store, where it does not. Two more
findings are proved rather than modelled away: removing the only item of a queue deletes the queue row
but leaves the item row, so that the item is handed out again after the next enqueue; and a head may be
removed once its lock has expired, while the token stays in the row, so that its holder can then
acknowledge an item it was never granted. That the lock is unexpired when its holder acknowledges does
not prevent this, since an expired lock can be renewed; that it has never lapsed since the grant does
(`UnlapsedTakesWhatWasGranted`, `LapsedMayTakeAnother`). For each of these conditions
`PriorityQueueExamples` holds an input that fails it, and on which the property fails.

Each public method is one call of the serial call queue inside one transaction: an error restores both
tables. The only error that is not a refusal is dereferencing a right child that does not exist. It needs
two queues with priorities above `MAX_SAFE_INTEGER`; `HeapDescent` and the `...Falls` predicates of
`HeapRepair` say exactly which calls fail, and `HolderCannotAcknowledge` shows how serious it is: the
rightful holder of an unexpired lock cannot acknowledge, however often it tries.

**Events, snapshots and commands.** `CommandProtocol` is a state machine of any number of aggregate
instances over one pair of tables. Reading the snapshot, replaying, saving a snapshot, checking for the
command, storing and publishing are separate steps that interleave freely; handlers are an arbitrary
function and the snapshot strategy may decide anything. The classes `DomainEventStore`,
`AggregateInstance`, `SimpleCommandBus` and `DomainEventPublisher` follow the source call by call. Each
database call of an instance is proved to be a step of the machine (`StepAnywhere` lifts it from the
instance alone to any world). Between two calls other instances act, about which is known only that
every row stays and that whatever was consistent stays consistent (`OthersActed`); `StepActs` proves that
every step of the machine is such a change, and `Create`, `ApplyCommandEvents` and `Handle` guarantee it
of their own effect.

**Locks and consumer progress.** `LockStore` and `ConsumerProgressStore` with both of their driver
paths, each with the events of its runs.

Assumptions: tokens are fresh, the clock never goes back, hashes are injective, the index of a parent
is (i - 1) / 2 and of the children 2i + 1 and 2i + 2 (the functions of wolkenkit are not part of this
model), an expiration time is not negative, and an aggregate id belongs to one context and one
aggregate name.

## Model

| member | source | states |
|---|---|---|
| `HeapOrder.SinkChoice` | packages/storage/src/priority-queue-store/priority-queue.store.ts:166-197 | the child chosen is a smallest child and smaller than its parent; staying means that both edges are right; the missing right child is dereferenced if and only if there is exactly one child and both priorities exceed MAX_SAFE_INTEGER |
| `HeapOrder.RiseStep` | packages/storage/src/priority-queue-store/priority-queue.store.ts:118-129 | one upward swap keeps "only the edge into the risen queue is wrong", also around queues that are allowed to be wrong |
| `HeapOrder.SinkStep` | packages/storage/src/priority-queue-store/priority-queue.store.ts:179-199 | one downward swap keeps "only the edges out of the sunk queue are wrong", and mends the edges around the slot it leaves |
| `HeapRepair.RepairedUpRestores` | packages/storage/src/priority-queue-store/priority-queue.store.ts:85-130 | repairUp restores heap order on every edge but those into queues that were exempt |
| `HeapRepair.RepairedDownRestores` | packages/storage/src/priority-queue-store/priority-queue.store.ts:132-200 | repairDown mends every edge except the one into its slot; that edge is right afterwards if and only if it was right before, and if not nothing has moved |
| `HeapDescent.FallsOffStep` | packages/storage/src/priority-queue-store/priority-queue.store.ts:172-197 | one comparison of repairDown neither makes nor mends the fault: the way down leads to a last slot that is an only child, with both elements beyond the safe integers |
| `HeapDescent.FallsOffNeedsTwo` | packages/storage/src/priority-queue-store/priority-queue.store.ts:184-186 | the fault takes two different queues beyond the safe integers |
| `HeapRepair.RepairedDownFallsIff` | packages/storage/src/priority-queue-store/priority-queue.store.ts:132-200 | repairDown dereferences a missing right child if and only if the priorities before it have this fault |
| `HeapRepair.LockFallsIff` | packages/storage/src/priority-queue-store/priority-queue.store.ts:461-542 | granting or renewing throws if and only if `LockFalls` holds before the call; never if the new lock is unexpired |
| `HeapRepair.AcknowledgeFallsIff` | packages/storage/src/priority-queue-store/priority-queue.store.ts:579-635 | acknowledging throws if and only if `AcknowledgeFalls` holds before the call |
| `HeapRepair.DeferFallsIff` | packages/storage/src/priority-queue-store/priority-queue.store.ts:674-692 | and so does deferring, whatever the new priority |
| `HeapRepair.RemoveFallsIff` | packages/storage/src/priority-queue-store/priority-queue.store.ts:720-799 | removing an item throws if and only if `RemoveFalls` holds before the call |
| `HeapRepair.SafeNeverNull` | packages/storage/src/priority-queue-store/priority-queue.store.ts:172-197 | the right-child swap is never taken without a right child while the priority of the sinking queue is at most MAX_SAFE_INTEGER |
| `HeapRepair.EnqueueKeepsHeap` | packages/storage/src/priority-queue-store/priority-queue.store.ts:400-433 | enqueue keeps heap order over all queues, for a new and for an existing queue, and for one that still holds a removed item |
| `HeapRepair.LockNextKeepsHeap` | packages/storage/src/priority-queue-store/priority-queue.store.ts:468-496 | granting a lock keeps heap order, whatever the priorities, unless it throws |
| `HeapRepair.RenewHeap` | packages/storage/src/priority-queue-store/priority-queue.store.ts:513-542 | unless it throws, renewing a lock, also an expired one, keeps heap order if and only if the parent of the queue is no larger than the queue is then |
| `HeapRepair.ExpiryKeepsHeapIff` | packages/storage/src/priority-queue-store/priority-queue.store.ts:26-32 | time alone keeps heap order if and only if every edge holds whose lower end loses its lock, or whose upper end loses it on a priority beyond the safe integers |
| `HeapRepair.ExpiryOfSafeKeepsHeapIff` | packages/storage/src/priority-queue-store/priority-queue.store.ts:26-32 | with safe priorities: if and only if each queue whose lock expires is no smaller than its parent is then |
| `HeapRepair.RemoveKeepsHeap` | packages/storage/src/priority-queue-store/priority-queue.store.ts:771-799 | unless it throws, removing any item of a queue that keeps another one keeps heap order |
| `HeapRepair.AcknowledgeHeap` | packages/storage/src/priority-queue-store/priority-queue.store.ts:579-635 | from a heap, acknowledge leaves at most the edge into the slot of its queue wrong; it leaves a heap if and only if the parent is no larger than what the slot holds next; otherwise repairing that slot upwards would restore the heap |
| `HeapRepair.RemoveOnlyHeap` | packages/storage/src/priority-queue-store/priority-queue.store.ts:202-248 | the same if-and-only-if for removing a queue |
| `HeapRepair.DeferHeap` | packages/storage/src/priority-queue-store/priority-queue.store.ts:674-692 | from a heap, defer leaves a heap if and only if acknowledge does, whatever the new priority; otherwise only the edge into one named queue is wrong |
| `HeapClimb.AppendDoesNotMend` | packages/storage/src/priority-queue-store/priority-queue.store.ts:674-692 | placing the deferred queue at the end again and repairing it up never mends the edge that taking it out has left wrong |
| `HeapRepair.NextIsLeast` | packages/storage/src/priority-queue-store/priority-queue.store.ts:468-477 | in a heap no unlocked queue has a smaller head priority than the lowest-index unlocked queue, except, under a locked root, one from MAX_SAFE_INTEGER on; so never for safe priorities |
| `HeapRepair.NextIsLeastOfSafe` | packages/storage/src/priority-queue-store/priority-queue.store.ts:468-477 | in a heap whose stored priorities are all at most 9007199254740991, no unlocked queue has a smaller head priority than the lowest-index unlocked queue, without exception |
| `HeapRepair.NextExistsIff` | packages/storage/src/priority-queue-store/priority-queue.store.ts:468-477 | in every state, heap or not, there is a queue to lock if and only if not every queue holds an unexpired lock |
| `HeapRuns.GuardIff` | packages/storage/src/priority-queue-store/priority-queue.store.ts:387-799 | from a heap, each call, accepted, refused or throwing, and each passing of time leaves a heap if and only if its guard holds before it |
| `HeapRuns.HeapRunIff` | packages/storage/src/priority-queue-store/priority-queue.store.ts:387-799 | in every run from the empty store, every state is a heap if and only if every call meets its guard |
| `HeapRuns.GrantsAreLeast` | packages/storage/src/priority-queue-store/priority-queue.store.ts:468-477 | in such a run every grant is of a queue with the least head priority among the unlocked ones, with the one exception of `NextIsLeast` |
| `HeapRuns.SafeGrantsAreLeast` | packages/storage/src/priority-queue-store/priority-queue.store.ts:468-477 | in such a run in which no call writes a priority beyond 9007199254740991, every grant is of a queue with the least head priority among the unlocked ones |
| `HeapRuns.SafeNeverThrows` | packages/storage/src/priority-queue-store/priority-queue.store.ts:132-200 | with such priorities no call ever throws, heap or not |
| `PriorityQueueExamples.ThreeEnqueued` | packages/storage/src/priority-queue-store/priority-queue.store.ts:387-434 | the state after three enqueues, computed |
| `PriorityQueueExamples.RootLocked` | packages/storage/src/priority-queue-store/priority-queue.store.ts:461-500 | locking the root of that state lets the other queue rise |
| `PriorityQueueExamples.AcknowledgeBreaksHeap` | packages/storage/src/priority-queue-store/priority-queue.store.ts:610-628 | acknowledging then leaves a queue below one with a larger priority, and the larger one is locked next |
| `PriorityQueueExamples.ExpiredHolderTakesAnother` | packages/storage/src/priority-queue-store/priority-queue.store.ts:760-784 | a run in which an expired holder, whose head was removed, acknowledges an item it was never granted |
| `PriorityQueueExamples.RenewedHolderTakesAnother` | packages/storage/src/priority-queue-store/priority-queue.store.ts:513-541 | the same although the lock is unexpired when its holder acknowledges: an expired lock can be renewed |
| `PriorityQueueExamples.RemovedItemIsGranted` | packages/storage/src/priority-queue-store/priority-queue.store.ts:765-769 | a run in which a removed item is granted after the next enqueue |
| `PriorityQueueExamples.HolderCannotAcknowledge` | packages/storage/src/priority-queue-store/priority-queue.store.ts:579-635 | a state, reached by three enqueues and a grant, in which the holder of an unexpired lock can at no later time acknowledge or defer, nor after its expiry anybody remove, what was granted: each call throws and leaves the state as it is |
| `PriorityQueueExamples.ExpiryReached` | packages/storage/src/priority-queue-store/priority-queue.store.ts:400-500 | the state of the next example is reached by three calls |
| `PriorityQueueExamples.ExpiryBreaksHeap` | packages/storage/src/priority-queue-store/priority-queue.store.ts:468-477 | when a lock expires, the next queue is not the one with the least priority |
| `PriorityQueueExamples.RenewReached` | packages/storage/src/priority-queue-store/priority-queue.store.ts:400-500 | the state of the next example is reached by four calls |
| `PriorityQueueExamples.RenewBreaksHeap` | packages/storage/src/priority-queue-store/priority-queue.store.ts:524-541 | renewing an expired lock breaks a heap of priorities beyond the safe integers |
| `PriorityQueueExamples.NextReached` | packages/storage/src/priority-queue-store/priority-queue.store.ts:400-500 | the state of the next example is reached by four calls |
| `PriorityQueueExamples.NextIsNotLeast` | packages/storage/src/priority-queue-store/priority-queue.store.ts:468-477 | beyond the safe integers and under a locked root the next queue need not be the least |
| `PriorityQueueExamples.NextIsNotLeastAt` | packages/storage/src/priority-queue-store/priority-queue.store.ts:26-32 | the priorities 9007199254740993 and 9007199254740992 are enough for that |
| `PriorityQueueExamples.SixReached` | packages/storage/src/priority-queue-store/priority-queue.store.ts:85-130 | a heap of six queues, one of them locked, reached from the empty store by seven calls |
| `PriorityQueueExamples.RefillBreaksHeap` | packages/storage/src/priority-queue-store/priority-queue.store.ts:227-247 | acknowledging, deferring or removing the only item of one of these queues breaks the heap |
| `TableQueries.NextIndexOfRange` | packages/storage/src/priority-queue-store/priority-queue.store.ts:400-404 | COALESCE(MAX + 1, 0) over contiguous indices is their number |
| `TableQueries.InOrderOfRange` | packages/storage/src/priority-queue-store/priority-queue.store.ts:741-748 | rows with contiguous indices come out each at the position of its index |
| `PriorityQueueTables.IndexIsBijection` | packages/storage/src/priority-queue-store/priority-queue.store.ts:46-83 | indexInPriorityQueue is a bijection between the queue rows and 0 .. n - 1, so a parent lookup always succeeds |
| `PriorityQueueTables.SwapInThreeUpdates` | packages/storage/src/priority-queue-store/priority-queue.store.ts:57-82 | the three updates with -1 in between are one swap |
| `PriorityQueueTables.SwapRepresents` | packages/storage/src/priority-queue-store/priority-queue.store.ts:46-83 | swapping two rows represents swapping two heap slots |
| `PriorityQueueTables.TakeOutFindsLast` | packages/storage/src/priority-queue-store/priority-queue.store.ts:219-241 | the row that moves into the free slot is the last one, and it is unique |
| `PriorityQueueTables.RowsMean` | packages/storage/src/priority-queue-store/priority-queue.store.ts:290-329 | row by row, what the two tables say about the queues, their locks and their items |
| `PriorityQueueTables.RowsAreFifo` | packages/storage/src/priority-queue-store/priority-queue.store.ts:741-750 | the rows in index order are the items of the queue in order |
| `PriorityQueueTables.Decrement` | packages/storage/src/priority-queue-store/priority-queue.store.ts:587-603 | the bulk decrement moves each affected row down by one index and loses none |
| `PriorityQueueTables.DropHeadRepresents` | packages/storage/src/priority-queue-store/priority-queue.store.ts:579-608 | deleting index 0 and decrementing the rest represents dropping the head |
| `PriorityQueueTables.RemoveAtRepresents` | packages/storage/src/priority-queue-store/priority-queue.store.ts:789-798 | deleting one index and decrementing those above represents deleting one item |
| `PriorityQueueTables.FindNext` | packages/storage/src/priority-queue-store/priority-queue.store.ts:468-477 | the query yields the unlocked queue with the lowest index, or nothing if every queue is locked |
| `PriorityQueueEffects.EnqueueEffect` | packages/storage/src/priority-queue-store/priority-queue.store.ts:400-433 | the item is the last of its queue; every other queue keeps items, lock and place in the store |
| `PriorityQueueEffects.LockEffect` | packages/storage/src/priority-queue-store/priority-queue.store.ts:484-496 | the queue has the lock and the same items; so has every other queue what it had |
| `PriorityQueueEffects.AcknowledgeEffect` | packages/storage/src/priority-queue-store/priority-queue.store.ts:610-635 | the head and the lock are gone, the queue with its last item; the others are as before |
| `PriorityQueueEffects.DeferEffect` | packages/storage/src/priority-queue-store/priority-queue.store.ts:674-692 | the head is last, with its new priority, and the lock is gone; the others are as before |
| `PriorityQueueEffects.RemoveEffect` | packages/storage/src/priority-queue-store/priority-queue.store.ts:765-798 | the item is gone and the lock kept, or the queue is gone and its only item kept; the others are as before |
| `PriorityQueueStore.HeadIsDropped` | packages/storage/src/priority-queue-store/priority-queue.store.ts:584-608 | both driver paths count the same number of remaining rows |
| `PriorityQueueStore.PriorityQueueStore.constructor` | packages/storage/src/priority-queue-store/priority-queue.store.ts:34-44 | an empty store |
| `PriorityQueueStore.PriorityQueueStore.GetPriority` | packages/storage/src/priority-queue-store/priority-queue.store.ts:26-32 | 9007199254740991 while the lock is unexpired, the item priority without a lock or once it has expired |
| `PriorityQueueStore.PriorityQueueStore.GetQueueByDiscriminator` | packages/storage/src/priority-queue-store/priority-queue.store.ts:250-288 | finds exactly the existing queues; the priority is that of an arbitrary item row unless the head row comes first |
| `PriorityQueueStore.PriorityQueueStore.GetQueueByIndex` | packages/storage/src/priority-queue-store/priority-queue.store.ts:290-329 | finds a queue for exactly the indices 0 .. n - 1, with the priority of its head |
| `PriorityQueueStore.PriorityQueueStore.GetFirstItemInQueue` | packages/storage/src/priority-queue-store/priority-queue.store.ts:331-354 | the head item, or the failure of taking an item out of a missing row |
| `PriorityQueueStore.PriorityQueueStore.GetQueueIfLocked` | packages/storage/src/priority-queue-store/priority-queue.store.ts:356-385 | succeeds exactly for the current token of the queue; otherwise not found, not locked or mismatch, in this order |
| `PriorityQueueStore.PriorityQueueStore.SwapPositions` | packages/storage/src/priority-queue-store/priority-queue.store.ts:46-83 | swaps two heap slots and leaves everything else |
| `PriorityQueueStore.PriorityQueueStore.RepairUp` | packages/storage/src/priority-queue-store/priority-queue.store.ts:85-130 | terminates and only reorders the heap for any clock and any rows read; at a fixed time it is the repair that the heap lemmas are about |
| `PriorityQueueStore.PriorityQueueStore.ReadPriorities` | packages/storage/src/priority-queue-store/priority-queue.store.ts:172-177 | the priorities of a queue and its children, a missing right child counting as MAX_SAFE_INTEGER |
| `PriorityQueueStore.PriorityQueueStore.ChildToSwap` | packages/storage/src/priority-queue-store/priority-queue.store.ts:147-197 | the choice of the child to swap with; fails only beyond MAX_SAFE_INTEGER |
| `PriorityQueueStore.PriorityQueueStore.RepairDown` | packages/storage/src/priority-queue-store/priority-queue.store.ts:132-200 | terminates and only reorders the heap for any clock and any rows read; never fails for safe integers; at a fixed time it is the repair that the heap lemmas are about |
| `PriorityQueueStore.PriorityQueueStore.RemoveQueueInternal` | packages/storage/src/priority-queue-store/priority-queue.store.ts:202-248 | the queue is gone, the last one has its slot, every other queue, lock and item is kept |
| `PriorityQueueStore.PriorityQueueStore.EnqueueInternal` | packages/storage/src/priority-queue-store/priority-queue.store.ts:387-434 | appends the item, creates the queue at the end of the heap if it is new |
| `PriorityQueueStore.PriorityQueueStore.Enqueue` | packages/storage/src/priority-queue-store/priority-queue.store.ts:436-459 | one step of the state machine, never refused; the item is the last of its queue, nothing else has changed |
| `PriorityQueueStore.PriorityQueueStore.LockNextInternal` | packages/storage/src/priority-queue-store/priority-queue.store.ts:461-500 | grants the head of the next unlocked queue under a fresh token, or reports that all are locked |
| `PriorityQueueStore.PriorityQueueStore.LockNext` | packages/storage/src/priority-queue-store/priority-queue.store.ts:502-511 | one step of the state machine; on an error both tables are as before; at a fixed time it throws if and only if `LockNextFalls` holds before it; returns nothing only if every queue is locked, otherwise the head of the first queue that is not, and locks it under the token for the expiration time |
| `PriorityQueueStore.PriorityQueueStore.RenewLockInternal` | packages/storage/src/priority-queue-store/priority-queue.store.ts:513-542 | sets a new expiry exactly for the holder of the token |
| `PriorityQueueStore.PriorityQueueStore.RenewLock` | packages/storage/src/priority-queue-store/priority-queue.store.ts:544-559 | one step of the state machine; refused with the error of the failed check, tables unchanged; at a fixed time it throws if and only if `LockFalls` holds before it and it is not refused; no queue, no lock and another token are refused with ItemNotFound, ItemNotLocked and TokenMismatch; on success only the expiry of the lock has changed |
| `PriorityQueueStore.PriorityQueueStore.DeleteHead` | packages/storage/src/priority-queue-store/priority-queue.store.ts:579-608 | the head row is gone, the others have moved down, and their number is returned |
| `PriorityQueueStore.PriorityQueueStore.AcknowledgeInternal` | packages/storage/src/priority-queue-store/priority-queue.store.ts:561-635 | drops the head and the lock, and the queue with its last item, exactly for the holder of the token |
| `PriorityQueueStore.PriorityQueueStore.Acknowledge` | packages/storage/src/priority-queue-store/priority-queue.store.ts:637-652 | one step of the state machine; refused with the error of the failed check, tables unchanged; at a fixed time it throws if and only if `AcknowledgeFalls` holds before it and it is not refused; no queue, no lock and another token are refused with ItemNotFound, ItemNotLocked and TokenMismatch; on success the head and the lock are gone |
| `PriorityQueueStore.PriorityQueueStore.DeferInternal` | packages/storage/src/priority-queue-store/priority-queue.store.ts:654-693 | moves the head to the end with its new priority, exactly for the holder of the token |
| `PriorityQueueStore.PriorityQueueStore.Defer` | packages/storage/src/priority-queue-store/priority-queue.store.ts:695-718 | one step of the state machine; refused with the error of the failed check, tables unchanged; at a fixed time it throws if and only if `AcknowledgeFalls` holds before it and it is not refused; no queue, no lock and another token are refused with ItemNotFound, ItemNotLocked and TokenMismatch; on success the head is last with the new priority and the lock is gone |
| `PriorityQueueStore.PriorityQueueStore.FindIndex` | packages/storage/src/priority-queue-store/priority-queue.store.ts:752-758 | the first matching position, or -1 if none matches |
| `PriorityQueueStore.PriorityQueueStore.RemoveHead` | packages/storage/src/priority-queue-store/priority-queue.store.ts:765-786 | removes the head of a queue, or the queue with its only item, repairing down and up |
| `PriorityQueueStore.PriorityQueueStore.RemoveLater` | packages/storage/src/priority-queue-store/priority-queue.store.ts:789-798 | removes an item behind the head; the heap does not change |
| `PriorityQueueStore.PriorityQueueStore.RemoveInternal` | packages/storage/src/priority-queue-store/priority-queue.store.ts:720-799 | removes the first matching item; not found if there is no queue or match, or if the match is a locked head |
| `PriorityQueueStore.PriorityQueueStore.Remove` | packages/storage/src/priority-queue-store/priority-queue.store.ts:801-821 | one step of the state machine; an error leaves both tables unchanged; at a fixed time it throws if and only if `RemovalFalls` holds before it and it is not refused; the first matching item is removed, unless it is a locked head; an item behind the head always is |
| `PriorityQueueProtocol.StepKeepsInv` | packages/storage/src/priority-queue-store/priority-queue.store.ts:387-799 | every operation keeps the structure: distinct queues, every queue has an item, locks belong to queues and carry issued tokens |
| `PriorityQueueRuns.ReachableInv` | packages/storage/src/priority-queue-store/priority-queue.store.ts:387-799 | every reachable state has the structure |
| `PriorityQueueRuns.StepOnFifo` | packages/storage/src/priority-queue-store/priority-queue.store.ts:720-799 | enqueue appends, acknowledge drops the head, defer moves it to the end, remove deletes one item unless it is the only one; no other queue changes |
| `PriorityQueueRuns.GrantsAreExclusive` | packages/storage/src/priority-queue-store/priority-queue.store.ts:461-500 | two grants of a queue are separated by an acknowledge or defer with the first token, or by the clock reaching the latest expiry, renewals included |
| `PriorityQueueRuns.LockPhases` | packages/storage/src/priority-queue-store/priority-queue.store.ts:513-542 | a lock holds with its latest expiry until it is released or that has passed |
| `PriorityQueueRuns.SupersededIsRefused` | packages/storage/src/priority-queue-store/priority-queue.store.ts:356-385 | a token that a later grant superseded is never accepted again |
| `PriorityQueueRuns.SupersededIsMismatch` | packages/storage/src/priority-queue-store/priority-queue.store.ts:380-382 | until the later grant is undone, it is answered with TokenMismatch |
| `PriorityQueueRuns.AcknowledgedIsNotLocked` | packages/storage/src/priority-queue-store/priority-queue.store.ts:377-379 | after an acknowledge that leaves items any token is answered with ItemNotLocked until the next grant |
| `PriorityQueueRuns.TokenTakesOnce` | packages/storage/src/priority-queue-store/priority-queue.store.ts:561-635 | a token acknowledges or defers at most once |
| `PriorityQueueRuns.TakesWhatWasGranted` | packages/storage/src/priority-queue-store/priority-queue.store.ts:561-693 | acknowledge and defer take the item that was granted unless the head was removed in between; for an item that is not in the queue twice, if and only if it was not |
| `PriorityQueueRuns.UnlapsedTakesWhatWasGranted` | packages/storage/src/priority-queue-store/priority-queue.store.ts:513-693 | a holder whose lock has never lapsed since the grant, renewals included, takes the item that was granted |
| `PriorityQueueRuns.LapsedMayTakeAnother` | packages/storage/src/priority-queue-store/priority-queue.store.ts:513-693 | in every state in which a lock has lapsed on a queue with another item, removing the head makes the holder take that other item, with or without renewing first |
| `PriorityQueueRuns.HeadRemovedAfterExpiry` | packages/storage/src/priority-queue-store/priority-queue.store.ts:760-763 | a granted head is removed only after its lock has expired or been released |
| `PriorityQueueRuns.ItemsConserved` | packages/storage/src/priority-queue-store/priority-queue.store.ts:387-799 | in every run the items held are those enqueued minus those acknowledged and removed, removal of an only item excepted |
| `PriorityQueueRuns.RemovedIsGoneIff` | packages/storage/src/priority-queue-store/priority-queue.store.ts:765-769 | a removed item is gone if and only if its queue held another one |
| `PriorityQueueRuns.RemovedOnlyItemReturns` | packages/storage/src/priority-queue-store/priority-queue.store.ts:765-769 | the only item of a queue, once removed, is granted again after the next enqueue |
| `DomainEvents.InsertedRows` | packages/storage/src/domain-event-store/domain-event.store.ts:180-191 | inserting a batch adds exactly its events |
| `DomainEvents.SoundRevisions` | packages/storage/src/domain-event-store/domain-event.store.ts:97-129 | in gap-free tables the revisions are exactly 1 .. n |
| `DomainEvents.ReplayMeans` | packages/storage/src/domain-event-store/domain-event.store.ts:97-129 | a replay yields exactly the stored events of the aggregate in the interval, each once, by increasing revision |
| `DomainEvents.ReplayIs` | packages/storage/src/domain-event-store/domain-event.store.ts:120-128 | a replay from n + 1 yields the later events in revision order |
| `DomainEvents.FoldIsTrace` | packages/domain/src/aggregate/aggregate.instance.ts:163-192 | the fold is the last of the states that the stored events lead through, one by one, from the initial state |
| `DomainEvents.ApplyAllIsTrace` | packages/domain/src/aggregate/aggregate.instance.ts:129-133 | and so is the state after a list of events |
| `DomainEvents.ApplyAllIsFold` | packages/domain/src/aggregate/aggregate.instance.ts:81-84 | applying later events one by one to a fold gives the fold of all |
| `DomainEvents.AppendedRows` | packages/storage/src/domain-event-store/domain-event.store.ts:180-198 | a batch numbered on from any stored revision can be inserted only after the last one, and then leaves no gap |
| `DomainEventStore.DomainEventStore.HasDomainEventsWithCausationId` | packages/storage/src/domain-event-store/domain-event.store.ts:55-67 | true if and only if the causation id of some stored event, of any aggregate, is the one asked for |
| `DomainEventStore.DomainEventStore.GetReplayForAggregate` | packages/storage/src/domain-event-store/domain-event.store.ts:97-129 | exactly the stored events with a revision in the interval, by increasing revision, or an error for a bad interval |
| `DomainEventStore.DomainEventStore.StoreDomainEvents` | packages/storage/src/domain-event-store/domain-event.store.ts:171-201 | all events or none: succeeds if and only if there are events, no key exists or repeats and no revision exceeds 2147483647; the error says which of these fails |
| `DomainEventStore.DomainEventStore.GetSnapshot` | packages/storage/src/domain-event-store/domain-event.store.ts:203-229 | the stored snapshot than which no stored revision is greater, none if and only if there is none |
| `DomainEventStore.DomainEventStore.StoreSnapshot` | packages/storage/src/domain-event-store/domain-event.store.ts:231-245 | adds the snapshot unless there is one for that revision |
| `AggregateInstance.AggregateInstance.ApplySnapshot` | packages/domain/src/aggregate/aggregate.instance.ts:142-149 | takes over state and revision, or refuses another aggregate and changes nothing |
| `AggregateInstance.AggregateInstance.ApplyDomainEvent` | packages/domain/src/aggregate/aggregate.instance.ts:163-192 | the next state, or an error if context, name or id differ |
| `AggregateInstance.AggregateInstance.ApplyEvents` | packages/domain/src/aggregate/aggregate.instance.ts:129-133 | state and revision after a list of events |
| `AggregateInstance.AggregateInstance.PublishDomainEvent` | packages/domain/src/aggregate/aggregate.instance.ts:194-230 | builds the next event in revision order, recording the unchanged state as its previous state |
| `AggregateInstance.AggregateInstance.PublishAll` | packages/domain/src/aggregate/aggregate.instance.ts:118-120 | the events of a command, numbered on, all with the same previous state |
| `AggregateInstance.AggregateInstance.StoreCurrentAggregateState` | packages/domain/src/aggregate/aggregate.instance.ts:151-161 | stores all unstored events or none; nothing to store succeeds |
| `AggregateInstance.AggregateInstance.BuildUnlessFound` | packages/domain/src/aggregate/aggregate.instance.ts:113-120 | finds a duplicate if and only if an event of that causation id is stored, and then is the duplicate step of the protocol; otherwise is the step that builds the events |
| `AggregateInstance.AggregateInstance.StoreAndApply` | packages/domain/src/aggregate/aggregate.instance.ts:122-135 | is the step of the protocol that stores and applies the whole batch, or the one that rejects it and changes nothing |
| `AggregateInstance.AggregateInstance.CheckAndBuild` | packages/domain/src/aggregate/aggregate.instance.ts:113-120 | a duplicate command is found; otherwise the events are built and the instance stays consistent while others act; the others may rely on it |
| `AggregateInstance.AggregateInstance.ApplyCommandEvents` | packages/domain/src/aggregate/aggregate.instance.ts:109-136 | on success exactly the command's events are stored, follow the old revision and are applied; nothing is stored only for a duplicate or an empty command; on rejection, whose cause is named, state and revision stay and the events are kept; its own effect is one that other instances tolerate; event by event: its data, its revision, its causation, its previous and next state and its row; the state has passed through the events one by one |
| `AggregateInstance.AggregateInstance.RestoreSnapshot` | packages/domain/src/aggregate/aggregate.instance.ts:61-70 | is the restoring step of the protocol: the instance is the fold of the events up to the newest snapshot |
| `AggregateInstance.AggregateInstance.ReplayEvents` | packages/domain/src/aggregate/aggregate.instance.ts:72-84 | is the replaying step of the protocol: the instance is the fold of all stored events; fails exactly after a snapshot of the greatest revision there is |
| `AggregateInstance.AggregateInstance.SaveSnapshotIf` | packages/domain/src/aggregate/aggregate.instance.ts:89-102 | is the step of the protocol that saves a snapshot, or the one that does not |
| `AggregateInstance.AggregateInstance.Load` | packages/domain/src/aggregate/aggregate.instance.ts:61-104 | the part of the next row that uses the database |
| `AggregateInstance.Create` | packages/domain/src/aggregate/aggregate.instance.ts:38-107 | a created instance is the fold of the events up to its revision and has seen every event stored before the call, whatever others do meanwhile; fails, for a known aggregate, exactly if the snapshot it reads has the greatest revision there is; stores a snapshot if and only if events were replayed and the strategy, asked about the snapshot that was read and their number, says so, and there is none of that revision |
| `CommandProtocol.StepKeepsInv` | packages/domain/src/aggregate/aggregate.instance.ts:109-135 | every step of any instance keeps: revisions without gaps, every snapshot a fold, every instance a fold, every rejected instance stuck |
| `CommandProtocol.StepActs` | packages/domain/src/aggregate/aggregate.instance.ts:109-135 | every step is a change that the other instances tolerate while they await |
| `CommandProtocol.StepAnywhere` | packages/domain/src/aggregate/aggregate.instance.ts:109-135 | a step of an instance by itself is, under any name and among any other instances, a step of the whole machine |
| `CommandProtocol.RevisionsAreGapFree` | packages/domain/src/aggregate/aggregate.instance.ts:211 | in every reachable state the revisions of every aggregate are exactly 1 .. n |
| `CommandProtocol.CreateIsFold` | packages/domain/src/aggregate/aggregate.instance.ts:61-104 | snapshot plus replay gives the fold of all events from the initial state, whatever was snapshotted by whom |
| `CommandProtocol.LiveStateIsFold` | packages/domain/src/aggregate/aggregate.instance.ts:117-135 | at any time the live state is what a fresh instance computes from the events up to the same revision |
| `CommandProtocol.StoreAppendsBatch` | packages/storage/src/domain-event-store/domain-event.store.ts:180-191 | a successful store appends the writer's whole batch and touches no other aggregate |
| `CommandProtocol.OnlyStoreWrites` | packages/domain/src/aggregate/aggregate.instance.ts:151-161 | no other step, rejected stores included, changes the events |
| `CommandProtocol.StoreIsFirst` | packages/domain/src/aggregate/aggregate.instance.ts:113-115 | what is stored for a command is its own, and the aggregate had nothing of it before |
| `CommandProtocol.OneBatchPerCommand` | packages/domain/src/aggregate/aggregate.instance.ts:113-122 | for one command and one aggregate at most one batch is ever stored, in every interleaving |
| `CommandProtocol.RowWasStored` | packages/storage/src/domain-event-store/domain-event.store.ts:171-201 | every stored event was stored by an instance that handled the command of its causation id |
| `CommandProtocol.DuplicateWasStored` | packages/domain/src/aggregate/aggregate.instance.ts:113-115 | a command that is found to be a duplicate has stored events before |
| `CommandProtocol.CheckedIsNew` | packages/domain/src/aggregate/aggregate.instance.ts:113-115 | a command that is found to be new has not |
| `CommandProtocol.RejectedForEver` | packages/domain/src/aggregate/aggregate.instance.ts:122-126 | a rejected instance keeps its unstored events and never stores again |
| `CommandProtocol.PublishedWasStored` | packages/command-handling/src/bus/simple.command-bus.ts:34-36 | only what the command has just stored is published, in increasing revision order |
| `CommandProtocol.StoredIsPublished` | packages/command-handling/src/bus/simple.command-bus.ts:34-36 | what an instance has stored is what it publishes next |
| `CommandProtocol.PublishedOnce` | packages/command-handling/src/bus/simple.command-bus.ts:34-36 | no batch is published twice |
| `CommandProtocol.LoserPublishesNothing` | packages/command-handling/src/bus/simple.command-bus.ts:34-36 | an instance that lost a race publishes nothing any more |
| `CommandProtocol.DuplicatePublishesNothing` | packages/command-handling/src/bus/simple.command-bus.ts:34-36 | a duplicate command publishes the empty batch |
| `SimpleCommandBus.SimpleCommandBus.Handle` | packages/command-handling/src/bus/simple.command-bus.ts:20-39 | hands to the publisher exactly the batch this command stored, after it is stored: the handler's answer to the first n events of the aggregate, all those stored before the call among them, following on them; nothing for a command some event of which was stored before; succeeds without events only if the answer is empty or the command a duplicate; fails without storing only for a missing handler, an unknown aggregate, an error of the handler on such events, a lost race or an exhausted revision column, each with its own error, and after storing only if an event handler throws, which is then the last call made |
| `SimpleCommandBus.SimpleCommandBus.ApplyAndPublish` | packages/command-handling/src/bus/simple.command-bus.ts:32-36 | stores the answer of the handler, then publishes it; nothing of a duplicate |
| `DomainEventPublisher.DomainEventPublisher.PublishDomainEvents` | packages/event-handling/src/publisher/simple.domain-event-publisher.ts:12-31 | makes the calls as listed and stops at the first that throws: it fails if and only if one has thrown, which is the last one made |
| `DomainEventPublisher.DomainEventPublisher.Deliver` | packages/event-handling/src/publisher/simple.domain-event-publisher.ts:15-29 | the same for the relevant handlers of one event |
| `DomainEventPublisher.DeliveredIff` | packages/event-handling/src/publisher/simple.domain-event-publisher.ts:13-18 | exactly the handlers that an event of the batch is relevant for are called with it |
| `DomainEventPublisher.DeliveriesInOrder` | packages/event-handling/src/publisher/simple.domain-event-publisher.ts:13-18 | calls follow the revisions and, for one event, the order of registration; none is made twice |
| `LockStore.LockStore.RemoveExpiredLocks` | packages/storage/src/lock-store/lock.store.ts:16-24 | exactly the locks whose expiry has passed are deleted |
| `LockStore.LockStore.AcquireLock` | packages/storage/src/lock-store/lock.store.ts:26-52 | at a fixed time it fails for an expiry in the past, then for a value with an unexpired lock, and otherwise succeeds; then the value is locked until that expiry and the other unexpired locks are as before; a failure changes nothing |
| `LockStore.LockStore.IsLocked` | packages/storage/src/lock-store/lock.store.ts:54-72 | true exactly for a lock whose expiry has not passed |
| `LockStore.LockStore.RenewLock` | packages/storage/src/lock-store/lock.store.ts:74-117 | on both driver paths: at a fixed time it fails for an expiry in the past, then for a value without an unexpired lock, and otherwise succeeds; then the value is locked until that expiry and the other unexpired locks are as before |
| `LockStore.LockStore.ReleaseLock` | packages/storage/src/lock-store/lock.store.ts:119-131 | the value is no longer locked; the other unexpired locks are as before |
| `LockStore.LockHeld` | packages/storage/src/lock-store/lock.store.ts:16-131 | in every run a lock is held with the expiry set last until it is released or that has passed |
| `LockStore.AcquisitionsAreExclusive` | packages/storage/src/lock-store/lock.store.ts:26-52 | two acquisitions of a value are separated by a release, or the clock has passed the expiry set last |
| `LockStore.RenewalExtends` | packages/storage/src/lock-store/lock.store.ts:74-117 | a renewal never revives a lock that was released or had expired |
| `ConsumerProgressStore.ConsumerProgressStore.Find` | packages/storage/src/consumer-progress-store/consumer-progress.store.ts:191 | every matching row once |
| `ConsumerProgressStore.ConsumerProgressStore.Update` | packages/storage/src/consumer-progress-store/consumer-progress.store.ts:183-207 | both driver paths give the same table and the same number of affected rows |
| `ConsumerProgressStore.ConsumerProgressStore.Insert` | packages/storage/src/consumer-progress-store/consumer-progress.store.ts:83-87 | adds the row, or fails for an existing key |
| `ConsumerProgressStore.ConsumerProgressStore.GetProgress` | packages/storage/src/consumer-progress-store/consumer-progress.store.ts:19-50 | the revision and replay of the row, revision 0 without one; a bound of 0 reads as not replaying |
| `ConsumerProgressStore.ConsumerProgressStore.SetProgress` | packages/storage/src/consumer-progress-store/consumer-progress.store.ts:52-96 | fails if and only if the row has the same or a greater revision; otherwise the row has the revision and its replay, or is new; a failure changes nothing |
| `ConsumerProgressStore.ConsumerProgressStore.SetIsReplaying` | packages/storage/src/consumer-progress-store/consumer-progress.store.ts:98-166 | stopping always succeeds; starting fails if and only if the row has a bound set; the row then has the bounds and its revision, or is new with revision 0; a failure changes nothing |
| `ConsumerProgressStore.ConsumerProgressStore.ResetProgress` | packages/storage/src/consumer-progress-store/consumer-progress.store.ts:168-178 | removes exactly the rows of the consumer |
| `ConsumerProgressStore.UpdateOne` | packages/storage/src/consumer-progress-store/consumer-progress.store.ts:66-76 | criteria that name a key affect that row or none |
| `ConsumerProgressStore.SetProgressRaisesIff` | packages/storage/src/consumer-progress-store/consumer-progress.store.ts:52-96 | a successful update strictly raises the reported revision if and only if a row existed or the revision is at least 1, and leaves the replay |
| `ConsumerProgressStore.SetIsReplayingReports` | packages/storage/src/consumer-progress-store/consumer-progress.store.ts:98-166 | the revision stays; what is set is what is reported if and only if no bound is 0 |
| `ConsumerProgressStore.ReplayCanBeStopped` | packages/storage/src/consumer-progress-store/consumer-progress.store.ts:114-127 | in every table a replay can be stopped, and then none is reported |
| `ConsumerProgressStore.ReplayCanBeStartedIff` | packages/storage/src/consumer-progress-store/consumer-progress.store.ts:128-147 | a replay can be started if and only if the row has no bound set |
| `ConsumerProgressStore.RevisionIsAcceptedIff` | packages/storage/src/consumer-progress-store/consumer-progress.store.ts:66-80 | a revision is accepted if and only if it is greater than that of the row, the next one included |
| `ConsumerProgressStore.RevisionMonotone` | packages/storage/src/consumer-progress-store/consumer-progress.store.ts:52-96 | between resets the reported revision never falls |
| `ConsumerProgressStore.ProgressStrict` | packages/storage/src/consumer-progress-store/consumer-progress.store.ts:52-96 | two progress updates between resets have strictly increasing revisions |
| `ConsumerProgressStore.BoundsTogether` | packages/storage/src/consumer-progress-store/consumer-progress.store.ts:98-166 | the bounds of a replay are both null or both set |
| `ConsumerProgressStore.ReplayKept` | packages/storage/src/consumer-progress-store/consumer-progress.store.ts:98-166 | a running replay keeps its interval until it is stopped or reset |

## Left out

- Bigint columns that a driver returns as strings: priorities and times are integers, so comparing them as text is not modelled, nor is a lock whose expiry is the number 0, which the code takes for no lock.
- An item that is null or another falsy JSON value, which `getFirstItemInQueue` refuses.
- Several processes on one queue database: the serial call queue of one process is modelled, the isolation level of the database is not.
- Unique checks row by row inside one bulk decrement.
- The delete in `resetProgress` that is not awaited: it is modelled as taking effect in its transaction.
- Streams, `getReplay`, `getLastDomainEvent` and the searches by causation and correlation id other than the check for a command: filters and orderings of the same table.
- Event ids, timestamps, correlation ids, initiators and tags: carried along unchanged.
- What an event handler does with an event: it may throw, depending in any way on the calls made before, and that is all.
- Errors of the database other than a duplicate key and a revision beyond the column.
- Overlapping calls on one aggregate instance.
- Modules, decorators, metadata, gateways, configuration, migrations, samples and value objects: wiring.
