/**
 * The records that the synchronisation primitives of the kernel read and
 * write. Threads, locks, semaphores and condition variables are objects in
 * the kernel; here each is a record in a table of the Synch.Kernel class,
 * named by an identifier, and a pointer field becomes an identifier field.
 */
module SynchTypes {

  type ThreadId = nat
  type LockId = nat
  type SemaId = nat
  type CondId = nat

  datatype Option<T> = None | Some(value: T)

  /** The sentinel that init_priority and max_val hold when no donation is recorded. */
  const NoDonation: int := -1

  /** struct semaphore: the count of permits and the threads blocked on it, in list order. */
  datatype Semaphore = Semaphore(value: nat, waiters: seq<ThreadId>)

  /**
   * struct lock: the owning thread (None for NULL), the embedded semaphore
   * (by its slot in the semaphore table) and max_val, the highest priority
   * that ever asked for the lock while it was held.
   */
  datatype Lock = Lock(holder: Option<ThreadId>, sema: SemaId, maxVal: int)

  /**
   * The fields of struct thread that synch.c touches: the effective priority,
   * init_priority (the priority before the first donation, or NoDonation),
   * wait_lock (the lock the thread is trying to acquire) and holding_locks.
   */
  datatype Thread = Thread(priority: int, initPriority: int, waitLock: Option<LockId>, holdingLocks: seq<LockId>)

  /**
   * How a step of a possibly blocking operation ends: it completed, the
   * caller was queued on a semaphore and blocks, or the code dereferenced a
   * NULL holder (a kernel fault).
   */
  datatype Step = Done | Blocked | Faulted
}
