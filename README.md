# Ownership and scheduling in code_sketch, modelled in Dafny

This project models three small C++ components of the code_sketch repository
and proves what they promise:

- **SimpleSharedPtr / RefCounterModel** (`SimpleSharedPtr.cpp`): a
  reference-counted smart pointer with a separately allocated control block.
  `shared_ptr.dfy` models an abstract heap as a class `Heap<T>`. Its fields are
  the live `T` objects, the live control blocks (counter and object address),
  and the live `SimpleSharedPtr` variables (each holding null or a block
  address). The four constructors, the destructor, `Get`, `Reset` and
  `MakeSharedPtr` are methods of `Heap<T>`. `RefCounterModel::ShareOwnership`
  and `ReleaseOwnership` are methods too, used as the intermediate steps of
  `Copy` and `Destroy`. The control block's constructor is folded into
  `FromRaw` and `Reset`, and `RefCounterModel::Get` into `Heap.Get`. The
  constructors, `Destroy`, `Reset`, `MakeSharedPtr` and the object
  operations all preserve one ownership invariant, `HeapOk`:
  - while a block owns an object, the object is alive;
  - for a block that owns an object, its counter equals its (positive)
    number of live pointers; a block around nullptr keeps counter 1 however
    many pointers share it;
  - nothing dangles;
  - no object is managed by two blocks.

  The two block operations taken alone do not preserve `HeapOk`. For
  example, `ShareOwnership` raises a counter before the new owner exists.
- **CopyOnWritePtr** (`cpp/idioms/copy_on_write.cpp`): a wrapper around one
  `std::shared_ptr<T>`. In `copy_on_write.dfy`, class `CowHeap<T>` holds the
  shared cells, each a value plus the `use_count()` of its control block,
  and the live `CopyOnWritePtr` variables. The invariant `CowOk` says that
  each use count is the number of holders of that cell, and that it is
  positive. `GetMut` detaches a shared cell. Afterwards the caller is the
  only holder, every holder still sees the value it saw before, and a write
  through the returned pointer is invisible to all other holders.
- **thread_pool** (`thread_pool_v0.cpp`): a fixed set of `std::jthread`
  workers consuming a FIFO task queue. `thread_pool.dfy` models it as a
  sequential state machine, class `Pool<V>`:
  - `workers` is an array of per-worker flags: stop requested, exited,
    joinable.
  - `tasks` is the queue.
  - `results` maps each handle to its fulfilled outcome.
  - A ghost history records every submitted task and how many have been
    popped.

  Each method is one atomic step. `Submit` and the pop in `WorkerStep` are
  the C++ critical sections. `WorkerStep` also runs the popped task in the
  same step, although the C++ worker runs it after unlocking. `stop` and
  `join` take no lock in C++; here each is one step too. The interleaving of
  threads becomes the caller's choice of which worker steps. The invariant
  has three parts:
  - The queue is exactly the submitted tasks not yet popped, in submission
    order.
  - Exactly the popped tasks have results, and each result is what that
    task's closure returns.
  - A worker exits only after its stop was requested.

`counting.dfy` holds the shared vocabulary:
- an `Option` type for nullable addresses;
- `Count(m, v)`, the number of keys of a map bound to `v`;
- lemmas on how `Count` changes under map insertion, removal and update.

## Model

| member | source | states |
|---|---|---|
| SharedPtr.Heap.NewObject | SimpleSharedPtr.cpp:42 | `new T(ts...)` yields a fresh object that no control block manages yet, and changes nothing else. |
| SharedPtr.Heap.Store | SimpleSharedPtr.cpp:147-148 | A write through the raw `T*` from `Get` changes only that object's value, and the invariant still holds. |
| SharedPtr.Heap.ShareOwnership | SimpleSharedPtr.cpp:110-115 | The counter goes up by one only when the block's object is non-null. With a null object nothing changes. |
| SharedPtr.Heap.ReleaseOwnership | SimpleSharedPtr.cpp:124-135 | The counter goes down only for a non-null object. The result is true, and the object is deleted, exactly when the counter reaches 0. With a null object it returns false and changes nothing. |
| SharedPtr.Heap.Default | SimpleSharedPtr.cpp:7 | A default-constructed pointer has no control block, and no block or object changes. |
| SharedPtr.Heap.FromRaw | SimpleSharedPtr.cpp:65-68 | The new pointer gets a freshly allocated block with counter 1 that holds the given object pointer (possibly null). Nothing else changes. |
| SharedPtr.Heap.Copy | SimpleSharedPtr.cpp:49-55 | The copy refers to the same block as the source. That block is `Shared()`: counter + 1 when its object is non-null. No other block and no object changes, and the invariant is preserved. |
| SharedPtr.Heap.Move | SimpleSharedPtr.cpp:58-62 | The target takes the source's block and the source becomes null. No counter, block or object changes. |
| SharedPtr.Heap.Destroy | SimpleSharedPtr.cpp:71-78 | The pointer dies. It reports a release exactly when it was the last owner of a non-null object. Then the object and the block are deleted. Otherwise the block is only `Released()`, or untouched for a null block. The invariant is preserved. |
| SharedPtr.Heap.Get | SimpleSharedPtr.cpp:81-84 | Null without a block, otherwise the block's object (`RefCounterModel::Get`, SimpleSharedPtr.cpp:118-121). A non-null result is a live object. |
| SharedPtr.Heap.Reset | SimpleSharedPtr.cpp:87-91 | Runs the destructor's release, which frees the old object exactly when `p` was its last owner. The old block is deleted when `p` was its last owner, `Released()` otherwise, and left alone when `p` had none. Then `p` gets a fresh block with counter 1 holding the new pointer. All other pointers and blocks are unchanged. |
| SharedPtr.Heap.MakeSharedPtr | SimpleSharedPtr.cpp:39-44 | A fresh object with the given value, owned by a fresh block with counter 1 and by a fresh pointer. |
| SharedPtr.CopyKeepsInvariant | SimpleSharedPtr.cpp:49-55 | Copy construction into a fresh variable preserves `HeapOk` (an owning block's counter = its number of owners, a null block's counter stays 1, no dangling, unique ownership). |
| SharedPtr.MoveKeepsInvariant | SimpleSharedPtr.cpp:58-62 | Move construction preserves `HeapOk`. |
| SharedPtr.NewBlockKeepsInvariant | SimpleSharedPtr.cpp:95-99 | A fresh block with counter 1 and one owner preserves `HeapOk` when the object is null or not yet managed. |
| SharedPtr.DestroyKeepsInvariant | SimpleSharedPtr.cpp:71-78 | Destruction preserves `HeapOk` in all three cases: null block, not the last owner, last owner (object and block freed). |
| SharedPtr.LastOwnerHasCounterOne | SimpleSharedPtr.cpp:127-128 | For a block owning an object, "this pointer is the last owner" holds exactly when the counter is 1. So the release brings it to 0 exactly then. |
| SharedPtr.LastOwnerIsSoleReference | SimpleSharedPtr.cpp:73-75 | The destructor frees the object exactly when no other live pointer refers to its block. |
| SharedPtr.OwnedObjectIsReferenced | SimpleSharedPtr.cpp:124-135 | While a block owns an object, some live pointer refers to it: an object is never kept alive without an owner. |
| SharedPtr.NullScope | SimpleSharedPtr.cpp:139-142 | A default pointer and its copy see null, and leave no object, block or pointer behind. |
| SharedPtr.NullOwnerScope | SimpleSharedPtr.cpp:65-68 | A pointer built from nullptr, and its copy, never report a release. Their control block stays allocated after both destructors. |
| SharedPtr.DropTwoSharers | SimpleSharedPtr.cpp:152-153 | Two of three sharers die: the block survives with counter 1 and the object stays alive. |
| SharedPtr.EndOfScope | SimpleSharedPtr.cpp:153 | The four destructors at the end of a scope (one moved-from, three sharers) free the object and the block. |
| SharedPtr.FirstOwner | SimpleSharedPtr.cpp:145 | `SimpleSharedPtr{new int{99}}` or `MakeSharedPtr<int>(8888)` yields one pointer, one block with counter 1 and one object. |
| SharedPtr.CopyAndIncrement | SimpleSharedPtr.cpp:146-149 | After a copy, an increment through the copy's `Get` is seen through the original. The counter is 2. |
| SharedPtr.MoveOwner | SimpleSharedPtr.cpp:150-151 | After `std::move`, the source's `Get` is null and the target's is the object. The counter stays 2. |
| SharedPtr.CopyAgain | SimpleSharedPtr.cpp:152 | A further copy raises the counter to 3. |
| SharedPtr.SharingScope | SimpleSharedPtr.cpp:144-164 | The second and third scopes of `main` print 100 (resp. 8889) as "o:" and a null moved-from pointer next to a non-null one as "p:". Nothing is left allocated at the end. |
| CopyOnWrite.Acquired | cpp/idioms/copy_on_write.cpp:17 | Copying a shared_ptr raises its cell's use count by one, changes no other count, and changes no value. |
| CopyOnWrite.Released | cpp/idioms/copy_on_write.cpp:24 | Dropping a shared_ptr lowers its cell's use count by one, and frees the cell when it was the last use. |
| CopyOnWrite.InsertKeepsInvariant | cpp/idioms/copy_on_write.cpp:15-17 | A new holder (default or copy) preserves `CowOk`. |
| CopyOnWrite.MakeKeepsInvariant | cpp/idioms/copy_on_write.cpp:41-44 | A fresh cell with use count 1 and its one holder preserve `CowOk`. |
| CopyOnWrite.RebindKeepsInvariant | cpp/idioms/copy_on_write.cpp:22 | Copy assignment (acquire the new cell, then release the old) preserves `CowOk`, self-assignment included. |
| CopyOnWrite.RebindKeepsHoldersLive | cpp/idioms/copy_on_write.cpp:22 | After copy assignment no holder refers to a freed cell. |
| CopyOnWrite.RebindKeepsUseCounts | cpp/idioms/copy_on_write.cpp:22 | After copy assignment each remaining cell's use count is its positive number of holders. |
| CopyOnWrite.RemoveKeepsInvariant | cpp/idioms/copy_on_write.cpp:24 | The destructor preserves `CowOk`. |
| CopyOnWrite.DetachKeepsInvariant | cpp/idioms/copy_on_write.cpp:60-65 | Moving a holder of a shared cell to a fresh copy with use count 1 preserves `CowOk`. |
| CopyOnWrite.SoleHolderWriteIsPrivate | cpp/idioms/copy_on_write.cpp:47-51 | A write to a cell with use count 1 changes what its holder sees and what no other holder sees. |
| CopyOnWrite.UseCountOneIsSoleHolder | cpp/idioms/copy_on_write.cpp:62 | A cell's use count is 1 exactly when no other holder shares it. |
| CopyOnWrite.CowHeap.Default | cpp/idioms/copy_on_write.cpp:15 | A default-constructed pointer holds no data, and no cell changes. |
| CopyOnWrite.CowHeap.CopyOf | cpp/idioms/copy_on_write.cpp:17 | The copy holds the same cell as its source, whose use count goes up by one. |
| CopyOnWrite.CowHeap.Make | cpp/idioms/copy_on_write.cpp:41-44 | The variadic constructor creates a fresh cell, owned only by this pointer (use count 1), holding the constructed value. |
| CopyOnWrite.CowHeap.Assign | cpp/idioms/copy_on_write.cpp:22 | Copy assignment: the target holds the source's cell, which gains a use. The target's old cell loses one and is freed if that was its last. |
| CopyOnWrite.CowHeap.Destroy | cpp/idioms/copy_on_write.cpp:24 | The destructor releases the holder's cell, freeing it if it was the last use. |
| CopyOnWrite.CowHeap.GetImmut | cpp/idioms/copy_on_write.cpp:54-57 | Returns the holder's own cell address (`data_.get()`), null exactly when it holds no data. That cell holds the value the holder sees. Nothing changes, so repeated calls return the same address. |
| CopyOnWrite.CowHeap.Detach | cpp/idioms/copy_on_write.cpp:60-65 | With non-null data and a use count above 1, the holder moves to a fresh copy (use count 1) and the old cell loses one use. Otherwise nothing changes. |
| CopyOnWrite.CowHeap.GetMut | cpp/idioms/copy_on_write.cpp:47-51 | Null stays null. A non-null result is a cell of which this holder is the sole owner. Every holder sees the same value as before, and no other holder changes cell. An unshared or null holder is left exactly as it was, with no copy. A shared holder gets a fresh cell, and the others keep the old cell, which loses one use. |
| CopyOnWrite.CowHeap.Store | cpp/idioms/copy_on_write.cpp:50 | A write through the `T*` that GetMut returned changes only that cell's value. |
| CopyOnWrite.CowHeap.WriteMut | cpp/idioms/copy_on_write.cpp:47-51 | Writing through GetMut: this holder sees the new value, and every other holder sees what it saw before. |
| CopyOnWrite.CowMain | cpp/idioms/copy_on_write.cpp:67-90 | In `main`, every GetImmut and the GetMut on the default-constructed `t0` and its copy `t1` return null, and nothing is allocated. |
| CopyOnWrite.CopiesShareAddress | cpp/idioms/copy_on_write.cpp:17 | A copy and its original return the same non-null address from GetImmut, and a second GetImmut returns that address again. |
| CopyOnWrite.CopyThenWrite | cpp/idioms/copy_on_write.cpp:47-65 | Of two holders of one value, a write through the second's GetMut leaves the first seeing the original value. |
| ThreadPool.Pool.constructor | thread_pool_v0.cpp:17-28 | Requires capacity >= 1 and creates exactly `capacity` running, joinable workers with no stop requested. The queue and the results are empty. |
| ThreadPool.Pool.Stop | thread_pool_v0.cpp:38-44 | Sets the stop request on every worker and changes nothing else. When all stops were already requested it changes nothing at all (idempotent). |
| ThreadPool.Pool.Join | thread_pool_v0.cpp:47-54 | Joins exactly the joinable workers, which leave their loop because their stop was requested. The queue and the results are untouched. |
| ThreadPool.Pool.Destroy | thread_pool_v0.cpp:31-35 | stop then join: every worker ends stopped, exited and no longer joinable. |
| ThreadPool.Pool.Submit | thread_pool_v0.cpp:84-107 | Appends exactly one task at the tail, leaving earlier entries as they were, whatever the stop state. Returns a fresh handle that is not yet fulfilled. |
| ThreadPool.Pool.WorkerStep | thread_pool_v0.cpp:116-127 | One loop turn. With its stop requested, the worker exits without popping. With an empty queue it waits. Otherwise it pops the head, the oldest pending task, runs it, and stores that task's outcome under its handle. Other workers are unchanged. |
| ThreadPool.Pool.ScheduledRun | thread_pool_v0.cpp:111-129 | A worker running alone pops the tasks front first, so the handles it fulfils are the queue's handles in submission order. It then waits on an empty queue. With its stop requested, it exits without running anything; only its `exited` flag changes. |
| ThreadPool.Pool.Poll | thread_pool_v0.cpp:92-96 | A handle holds its own task's value or escaped exception once that task was popped and run (one step here), and nothing while it is pending. |
| ThreadPool.SumScenario | thread_pool_v0.cpp:84-127 | One worker, a task computing 1 + 1: its handle yields 2. |
| ThreadPool.FailureScenario | thread_pool_v0.cpp:92-96 | A task that throws makes its handle surface that exact error, and the pool goes on serving the next task. |
| ThreadPool.AbandonScenario | thread_pool_v0.cpp:116-122 | A task still queued when stop takes effect is never run: its handle stays pending and the task stays in the queue. |
| ThreadPool.SubmitAfterStop | thread_pool_v0.cpp:84-107 | A submission after stop is still enqueued, but a stopped worker never runs it. |
| ThreadPool.FifoScenario | thread_pool_v0.cpp:124-125 | One worker completes three tasks in submission order. |

## Left out

- Threads, `std::mutex`, `std::condition_variable`, the `std::jthread` stop-token wake-up, and the blocking of `std::future::get`/`wait_for`. The pool is a sequential state machine: one method call is one atomic step, and the caller chooses which worker steps. A worker blocked in the condition-variable wait is the `Waiting` step.
- `thread_pool::wait`, `terminate` and `cancel` (thread_pool_v0.cpp:64-80): empty bodies with nothing to model. No drain-on-stop is assumed.
- The `main` of thread_pool_v0.cpp (thread_pool_v0.cpp:143-164): it relies on `sleep(7)` and on side effects of the tasks on a shared atomic counter. Tasks here are pure closures returning a value or an exception, so effects on shared memory are not modelled.
- ThreadPool.Pool.Join: requires every joinable worker to have its stop requested. Without that the C++ `join` blocks forever, which a terminating method cannot express.
- ThreadPool.Pool.WorkerStep: pops a task and runs it in one step, while the C++ worker unlocks between the pop (thread_pool_v0.cpp:124-125) and `t()` (thread_pool_v0.cpp:127). So there is no "executing" state, in which a task has left the queue but its future is still pending. A task that blocks, or never returns and holds its worker forever, cannot be expressed.
- ThreadPool.Pool.ScheduledRun: models a worker that runs while no other actor acts, so it returns where the C++ `scheduled_run` blocks on an empty queue. Interleavings with other workers and submitters are expressed by calling WorkerStep directly.
- All `std::cout` output. The scenario methods return the printed values instead.
- Atomicity of `m_counter` (SimpleSharedPtr.cpp:32): a plain integer, single-threaded.
- `new` and `delete`: allocation and freeing on an abstract heap with fresh addresses from a counter.
- SimpleSharedPtr's copy and move assignment operators (SimpleSharedPtr.cpp:15-16): declared but never defined.
- The variadic RefCounterModel constructor (SimpleSharedPtr.cpp:102-107): never called by any code in the file. `MakeSharedPtr` goes through `new T` and the `T*` constructor.
- SharedPtr.Heap.FromRaw and SharedPtr.Heap.Reset: require the raw pointer to be null or a live object that no block manages yet. Handing the same object to two control blocks is a double delete in C++, which the model excludes rather than models.
- SharedPtr.Heap.Destroy: after it, the variable is gone, so the destructor's nulling of `m_pRefCntObj` (SimpleSharedPtr.cpp:75) is not observable and not modelled separately.
- A pointer built from nullptr keeps its control block forever, because `ReleaseOwnership` never returns true for a null object. The model keeps this behaviour (see SharedPtr.NullOwnerScope).
- CopyOnWritePtr over `std::shared_ptr`: only the use count and the value of a cell are modelled, not the control block's layout or weak counts. The variadic constructor's argument pack is given as the constructed value.
- coroutine.c, CoroutineUcontext.cpp, CoroutineUcontext2.cpp, friendship_and_attorney_client.cpp, base_from_member.cpp, ScopedExit.cpp, cpp_doxygen.hpp and deducing_your_intentions.cpp are not part of this model. They are context-switching demos, access-control and initialisation idioms, declarations, and a snippet that does not compile.
