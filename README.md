# Pintos synchronisation primitives with priority donation

This project models `src/threads/synch.c` of a Pintos kernel in Dafny. That file holds:

- counting semaphores whose waiters wake in priority order;
- locks built on a one-permit semaphore, with priority donation along the wait-for chain and priority restoration on release;
- Mesa-style condition variables whose waiters are private semaphores.

The kernel state is one object, `Synch.Kernel`. It holds the thread, lock, semaphore and condition-variable tables, plus the running thread. `Valid()` keeps every identifier stored in a table pointing at an entry of its table.

Each C function becomes a method that changes those tables the way the C code changes the structures. `sema_down`, `sema_try_down` and `sema_up` run with interrupts off. The lock and condition-variable operations run with interrupts on, but the model also treats each of them as one atomic step:

- A call that would sleep in `thread_block` ends with the caller queued and the outcome `Blocked`. The thread runs the step again once woken; this is the `while (sema->value == 0)` loop.
- A call that would `thread_yield` reports the yield as a boolean `preempt`.
- A NULL dereference reachable in the code is reported as the outcome `Faulted`.

The methods are proved against specification functions:

| module | functions | source it specifies |
|---|---|---|
| `Ordering` | `SortBy`, `InsertOrdered`, `FirstHighest`, `CompareSema` | `list_sort`, `list_insert_ordered` and the two comparators |
| `Donation` | `Donate`, `Restore`, `RemoveLock` | `donate_priority`, `priority_back`, `list_remove` |
| `Synch` | `Wake`, `Signal`, `Broadcast`, `TakeLock` | `sema_up`, `cond_signal`, `cond_broadcast`, the tail of `lock_acquire` |

Lemmas then state what those functions guarantee.

Files:

- `types.dfy` holds the records.
- `ordering.dfy` holds the sort orders and the list operations.
- `donation.dfy` holds donation and restoration.
- `synch.dfy` holds the kernel and its operations.

Some behaviours of the code differ from what the code's own comments and the surrounding priority-scheduling scheme intend. The model follows the code in each case except the first, where it uses the maximum that the commented-out loop computes:

- **Restoration on release (line 335).** `priority_back` picks a lock with `list_max` and `compare_priority_func`. That is a comparator of threads, and here it is applied to the `list_elem` of locks. The intended rule is the one in the commented-out loop at lines 328-333: the largest `max_val` of the locks still held. The model uses that rule (`Donation.MaxHeld`, `Donation.RestoreCases`).
- **Priority -1 after release.** A lock that never saw a contended acquire keeps `max_val == -1`. `priority_back` still takes it into the maximum, so a donated thread that still holds only such locks drops to priority -1 (`Donation.RestoreCanFallBelowBase`). A lock whose `max_val` was never raised has no donation to pass on, so it should be skipped; the code does not skip it.
- **Holder cleared after a possible yield.** `lock_release` clears `lock->holder` (line 308) after `sema_up`, and `sema_up` may already have yielded to the woken thread (line 144). That thread can then take the lock, and its holder field is cleared once the releasing thread runs again. `Synch.Kernel.LockRelease` therefore leaves the holder when `preempt` is true, and `Synch.Kernel.LockReleaseResume` performs line 308 later.
- **Donation through a NULL holder.** `donate_priority` reads `owner->priority` without checking `owner`. A wait-for chain can reach a lock whose holder is NULL: its last holder released it, and the thread it woke has not run yet and still has `wait_lock` set. The model returns `ok == false` and `Faulted` there (`Donation.DonateOkIffLastHeld`).
- **`cond_wait` does not insert by priority.** The call to `list_insert_ordered` with `compare_sema_func` at line 430 means to order the waiters by the waiting thread's priority. The code inserts the new waiter semaphore before its thread is on it. `compare_sema_func` then ranks it lowest, so it goes to the back (`Ordering.InsertWithoutWaiterAppends`). Priority order comes only from the sort in `cond_signal`.
- **No holding_locks entry for `lock_try_acquire`.** A lock taken with `lock_try_acquire` is never added to `holding_locks`.

## Model

| member | source | states |
|---|---|---|
| Ordering.FirstHighest | src/threads/synch.c:136-137 | the index of the element no other element ranks strictly above, the earliest of those that tie |
| Ordering.CompareSema | src/threads/synch.c:369-384 | compare_sema_func answers true exactly when a's front waiter ranks strictly above b's, a semaphore without waiters ranking below every other |
| Ordering.InsertOrderedPermutes | src/threads/synch.c:430 | list_insert_ordered adds the new element and nothing else (a permutation of the list plus the element) |
| Ordering.InsertOrderedElements | src/threads/synch.c:430 | every entry of the result is the new element or an entry of the list |
| Ordering.InsertOrderedSorted | src/threads/synch.c:430 | inserting into a sorted list keeps it sorted |
| Ordering.InsertWithoutWaiterAppends | src/threads/synch.c:429-430 | a waiter semaphore with no thread on it yet is put at the back of the condition's list |
| Ordering.SortByPermutes | src/threads/synch.c:136 | list_sort only reorders: the result is a permutation of the list |
| Ordering.SortBySorted | src/threads/synch.c:136 | after list_sort no entry ranks strictly above an entry before it |
| Ordering.SortByHead | src/threads/synch.c:136-137 | the front after list_sort is the earliest highest-ranked entry of the unsorted list |
| Donation.WaitChainFrame | src/threads/synch.c:261-262 | the wait-for chain depends only on holders and wait_locks, which donation does not change |
| Donation.WaitChainUnique | src/threads/synch.c:261-262 | the recursion is deterministic: there is one chain from a given lock |
| Donation.DonorOffChain | src/threads/synch.c:229-233 | the thread that starts donating already waits on the first lock, so it holds no lock of a finite chain |
| Donation.Raise | src/threads/synch.c:254-259 | the owner's priority becomes the larger of its own and the requester's; init_priority saves the old priority only on the first donation that raises it |
| Donation.Donate | src/threads/synch.c:244-264 | the walk changes no holder and no wait_lock |
| Donation.DonateStep | src/threads/synch.c:250-262 | one hop (max_val, then the owner's priority) followed by the walk from the owner's wait_lock |
| Donation.DonateFaults | src/threads/synch.c:248-254 | at a lock without a holder, max_val is raised and the walk faults |
| Donation.DonateEnds | src/threads/synch.c:254-263 | at an owner that waits on nothing, the walk ends after raising it |
| Donation.DonateMonotone | src/threads/synch.c:244-264 | donation never lowers a priority or a max_val and changes no holding_locks and no semaphore |
| Donation.DonateRaisesThreads | src/threads/synch.c:254-262 | along the walk, priorities only rise and holding_locks stay |
| Donation.DonateRaisesLocks | src/threads/synch.c:250-262 | along the walk, max_vals only rise and semaphores stay |
| Donation.DonateLeavesOthers | src/threads/synch.c:244-264 | only holders of the chain's locks and the chain's locks change |
| Donation.DonateOkIffLastHeld | src/threads/synch.c:248-262 | the walk avoids a NULL dereference exactly when the last lock of the chain has a holder |
| Donation.DonateRaisesMaxVal | src/threads/synch.c:250-251 | every lock of the chain ends with max_val at least the donor's priority |
| Donation.DonateRaisesHolders | src/threads/synch.c:254-262 | every holder along the chain ends with at least the donor's priority (transitive donation) |
| Donation.DonationFromWaiter | src/threads/synch.c:229-233 | donation as lock_acquire starts it raises every holder along the chain to the caller's priority and leaves the caller and every thread off the chain unchanged |
| Donation.RemoveLock | src/threads/synch.c:302 | the result lists only locks of the list, and a lock not in the list leaves it unchanged |
| Donation.RemoveLockDrops | src/threads/synch.c:302 | list_remove takes out exactly one entry of the released lock |
| Donation.MaxHeldIsMax | src/threads/synch.c:328-336 | the restored priority bounds every held lock's max_val and equals one of them |
| Donation.RestoreCases | src/threads/synch.c:313-345 | priority_back: no change without a recorded donation; back to init_priority and the sentinel with no lock left; otherwise the largest max_val of the locks still held, keeping init_priority |
| Donation.ReleaseBookkeeping | src/threads/synch.c:302-304 | lock_release before sema_up: the lock leaves holding_locks, wait_lock is kept and the held locks stay known |
| Donation.ReleasingAllRestoresBase | src/threads/synch.c:313-345 | releasing every held lock, in any order, ends with no lock, the sentinel, and the priority from before the first donation |
| Donation.RestoreCanFallBelowBase | src/threads/synch.c:335-337 | a held lock with max_val -1 makes priority_back set priority -1, below init_priority |
| Synch.Wake | src/threads/synch.c:133-141 | sema_up adds one permit, and wakes a thread exactly when there are waiters |
| Synch.WakeHighest | src/threads/synch.c:133-140 | the woken thread is the highest-priority waiter, the earliest of equals; the rest stay, minus that one thread |
| Synch.Signal | src/threads/synch.c:451-456 | cond_signal changes nothing exactly when there is no waiter; otherwise one entry leaves the list and no semaphore slot appears or disappears |
| Synch.SignalHighest | src/threads/synch.c:451-456 | the signalled entry is the one whose front thread has the highest priority (earliest of equals); it alone leaves the list, and it alone is upped as sema_up does |
| Synch.Broadcast | src/threads/synch.c:471-472 | cond_broadcast keeps the semaphore slots |
| Synch.BroadcastAccounts | src/threads/synch.c:465-473 | cond_broadcast gives each waiter semaphore one permit per entry it had and leaves every other semaphore unchanged |
| Synch.TakeLock | src/threads/synch.c:236-239 | completes exactly when the semaphore has a permit, and then the caller holds the lock, stops waiting, lists it last in holding_locks and uses one permit, with its priorities, the lock's max_val, the semaphore's waiters and every other thread, lock and semaphore unchanged; otherwise the only change is the caller appended to the semaphore's waiters |
| Synch.DonationFor | src/threads/synch.c:232-234 | donation from lock_acquire keeps the tables' slots and every lock's semaphore |
| Synch.Kernel.SemaInit | src/threads/synch.c:44-51 | the semaphore holds the given value and no waiter |
| Synch.Kernel.SemaDown | src/threads/synch.c:66-85 | never faults; takes a permit exactly when there is one, otherwise appends the caller to the waiters and blocks |
| Synch.Kernel.SemaTryDown | src/threads/synch.c:92-111 | succeeds exactly when there is a permit and then takes it; otherwise nothing changes |
| Synch.Kernel.SemaUp | src/threads/synch.c:120-146 | the semaphore becomes Wake of its old state; yields exactly when the woken thread outranks the caller |
| Synch.Kernel.LockInit | src/threads/synch.c:200-208 | no holder, a fresh one-permit semaphore and max_val -1 |
| Synch.Kernel.HeldByCurrentThread | src/threads/synch.c:352-358 | true exactly when the caller is the lock's holder: true means the caller holds it and no other thread does; false means the caller does not hold it |
| Synch.Kernel.DonatePriority | src/threads/synch.c:244-264 | the recursive method leaves exactly the tables Donate computes, and faults where Donate does |
| Synch.Kernel.LockAcquire | src/threads/synch.c:221-241 | waits on the lock, donates along the chain when the lock is held, then is TakeLock of the donated tables, or Faulted with the donated tables |
| Synch.Kernel.FinishAcquire | src/threads/synch.c:236-239 | the new state and outcome are TakeLock of the old state |
| Synch.Kernel.LockTryAcquire | src/threads/synch.c:273-286 | succeeds exactly when the semaphore has a permit, then holds the lock and uses one permit; no waiter list changes; nothing changes on failure |
| Synch.Kernel.PriorityBack | src/threads/synch.c:313-345 | the holder's record becomes Restore of it, and no other thread changes |
| Synch.Kernel.LockRelease | src/threads/synch.c:296-309 | the caller's record becomes ReleaseBookkeeping of it, the semaphore is upped as Wake says, and the holder is cleared unless sema_up yielded |
| Synch.Kernel.LockReleaseResume | src/threads/synch.c:308 | the lock's holder becomes NULL, whoever holds it by then |
| Synch.Kernel.CondInit | src/threads/synch.c:391-397 | the condition has no waiter |
| Synch.Kernel.CondWait | src/threads/synch.c:419-434 | a new zero-permit waiter semaphore goes to the back of the condition's list, then the lock is released as LockRelease states |
| Synch.Kernel.CondSignal | src/threads/synch.c:443-457 | the list and the semaphores become Signal of the old ones; yields exactly when the woken thread outranks the caller |
| Synch.Kernel.CondBroadcast | src/threads/synch.c:465-473 | the condition ends with no waiter and the semaphores become Broadcast of the old ones |

## Left out

- Interrupt masking (`intr_disable`, `intr_set_level`) and the `intr_context` assertions are not modelled. Every method is one atomic step.
- The scheduler is left out: the ready list, `thread_block`, `thread_unblock` and `thread_yield`. Their effect appears as the `Blocked` outcome, the `woken` thread and the `preempt` flag. `Synch.Kernel.Dispatch` stands for the scheduler choosing the running thread, and `Synch.Kernel.CreateThread` for `thread_create` adding a thread. Neither is code of `synch.c`.
- A thread blocked in `sema_down` is not modelled as a suspended call. It repeats the step (`Synch.Kernel.SemaDown`, `Synch.Kernel.FinishAcquire`) once it runs again.
- The self-test (`sema_self_test` and `sema_test_helper`, lines 153-183) is left out. It is a printing test driver.
- `compare_priority_func`, `list_sort`, `list_max`, `list_insert_ordered` and `list_remove` are not part of this model. Each is specified by what it is used for:
  - a stable sort in which an element goes before another exactly when it ranks strictly higher;
  - an ordered insert in front of the first element it ranks strictly above;
  - the removal of one entry.
- Synch.Kernel.PriorityBack: line 335 applies a thread comparator to lock list elements. The model takes the largest `max_val` of the held locks instead, which is what the commented-out loop at lines 328-333 computes.
- Synch.Kernel.SemaUp: the semaphore's `unsigned` value is unbounded here, so a wrap-around at `UINT_MAX` is not modelled.
- Synch.Kernel.CondBroadcast: the model applies one `cond_signal` transition per pass to copies of the tables and writes them back at the end. It does not report the threads woken, or the yields `sema_up` may make between signals.
- Synch.Kernel.CondWait: the model covers `cond_wait` up to its sleep. The rest (`sema_down` on the waiter semaphore, then `lock_acquire`) runs as `Synch.Kernel.SemaDown` and `Synch.Kernel.LockAcquire` once the thread is woken. The semaphore on the caller's stack is a fresh slot of the semaphore table that is never freed.
- Synch.Kernel.LockAcquire, Synch.Kernel.DonatePriority, Synch.Kernel.LockRelease, Synch.Kernel.PriorityBack, Synch.Kernel.CondWait, Synch.Kernel.CondSignal and Synch.Kernel.CondBroadcast: these run with interrupts on in the source, and a timer interrupt can preempt them, but each is one atomic step here. Preemption inside them is not modelled. One consequence: `lock_acquire` can be preempted between the holder test at line 232 and the read of `owner->priority` at line 254, and the holder can release the lock in between. The source then reads through NULL at the first hop, a fault the model shows only at later hops of the walk.
- Synch.Kernel.DonatePriority and Synch.Kernel.LockAcquire: the model requires a finite wait-for chain (`Donation.IsWaitChain`). With a cycle of waiting holders the source recurses forever, and that case is not modelled.
- Donation.RemoveLock: a lock that is not in the list leaves the list unchanged. The source unlinks through whatever stale links the element still has, for example after a `lock_try_acquire`, which never lists the lock.
- The `ASSERT`s for NULL arguments, recursive acquisition and releasing a lock the caller does not hold are preconditions of the methods. They are not modelled as a kernel panic.
