/**
 * The synchronisation primitives of src/threads/synch.c as transitions of one
 * kernel state: the thread, lock, semaphore and condition-variable tables and
 * the running thread. The semaphore operations run with interrupts off in
 * the source; the lock and condition operations do not, but each method
 * below is still one atomic step, so preemption inside them is not modelled.
 * A call that would sleep ends
 * with the caller queued and the outcome Blocked; the thread that later runs
 * again repeats the step. A call that would yield reports it as a boolean.
 */
module Synch {
  import opened SynchTypes
  import opened Ordering
  import opened Donation

  /** Every semaphore's waiters are threads of the table. */
  predicate WaitersKnown(s: Semaphore, threads: map<ThreadId, Thread>) {
    forall i | 0 <= i < |s.waiters| :: s.waiters[i] in threads
  }

  /** Every identifier stored in a table names an entry of its table. */
  ghost predicate TablesValid(threads: map<ThreadId, Thread>, locks: map<LockId, Lock>,
                              semas: map<SemaId, Semaphore>, conds: map<CondId, seq<SemaId>>)
  {
    && (forall t | t in threads :: threads[t].waitLock.Some? ==> threads[t].waitLock.value in locks)
    && (forall t | t in threads :: HeldKnown(threads[t], locks))
    && (forall l | l in locks :: locks[l].sema in semas)
    && (forall l | l in locks :: locks[l].holder.Some? ==> locks[l].holder.value in threads)
    && (forall s | s in semas :: WaitersKnown(semas[s], threads))
    && (forall c | c in conds :: forall i | 0 <= i < |conds[c]| :: conds[c][i] in semas)
  }

  /** Replacing (or adding) a thread record that names only known locks keeps the tables valid. */
  lemma ThreadUpdateValid(threads: map<ThreadId, Thread>, locks: map<LockId, Lock>,
                          semas: map<SemaId, Semaphore>, conds: map<CondId, seq<SemaId>>, t: ThreadId, th: Thread)
    requires TablesValid(threads, locks, semas, conds)
    requires th.waitLock.Some? ==> th.waitLock.value in locks
    requires HeldKnown(th, locks)
    ensures TablesValid(threads[t := th], locks, semas, conds)
  {
    var threads' := threads[t := th];
    forall s | s in semas ensures WaitersKnown(semas[s], threads') {
      assert WaitersKnown(semas[s], threads);
    }
  }

  /** Replacing (or adding) a lock whose semaphore and holder are known keeps the tables valid. */
  lemma LockUpdateValid(threads: map<ThreadId, Thread>, locks: map<LockId, Lock>,
                        semas: map<SemaId, Semaphore>, conds: map<CondId, seq<SemaId>>, l: LockId, lk: Lock)
    requires TablesValid(threads, locks, semas, conds)
    requires lk.sema in semas
    requires lk.holder.Some? ==> lk.holder.value in threads
    ensures TablesValid(threads, locks[l := lk], semas, conds)
  {
    var locks' := locks[l := lk];
    forall t | t in threads ensures HeldKnown(threads[t], locks') {
      assert HeldKnown(threads[t], locks);
    }
  }

  /** Replacing (or adding) a semaphore whose waiters are known keeps the tables valid. */
  lemma SemaUpdateValid(threads: map<ThreadId, Thread>, locks: map<LockId, Lock>,
                        semas: map<SemaId, Semaphore>, conds: map<CondId, seq<SemaId>>, s: SemaId, sm: Semaphore)
    requires TablesValid(threads, locks, semas, conds)
    requires WaitersKnown(sm, threads)
    ensures TablesValid(threads, locks, semas[s := sm], conds)
  {
  }

  /** Replacing (or adding) a condition whose waiter semaphores are known keeps the tables valid. */
  lemma CondUpdateValid(threads: map<ThreadId, Thread>, locks: map<LockId, Lock>,
                        semas: map<SemaId, Semaphore>, conds: map<CondId, seq<SemaId>>, c: CondId, ws: seq<SemaId>)
    requires TablesValid(threads, locks, semas, conds)
    requires forall i | 0 <= i < |ws| :: ws[i] in semas
    ensures TablesValid(threads, locks, semas, conds[c := ws])
  {
  }

  /** Donation changes only priorities and max_vals, so the tables stay valid. */
  lemma DonateKeepsValid(threads: map<ThreadId, Thread>, locks: map<LockId, Lock>,
                         semas: map<SemaId, Semaphore>, conds: map<CondId, seq<SemaId>>, cur: ThreadId, c: seq<LockId>)
    requires cur in threads && IsWaitChain(threads, locks, c)
    requires TablesValid(threads, locks, semas, conds)
    ensures var r := Donate(threads, locks, cur, c); TablesValid(r.threads, r.locks, semas, conds)
  {
    DonateMonotone(threads, locks, cur, c);
    var r := Donate(threads, locks, cur, c);
    forall s | s in semas ensures WaitersKnown(semas[s], r.threads) {
      assert WaitersKnown(semas[s], threads);
    }
    forall t | t in r.threads ensures HeldKnown(r.threads[t], r.locks) {
      assert HeldKnown(threads[t], locks);
    }
  }

  /** What sema_up does to a semaphore: the semaphore afterwards and the thread it unblocks. */
  datatype UpResult = UpResult(sema: Semaphore, woken: Option<ThreadId>)

  /**
   * sema_up on s (lines 133-141): with waiters, they are sorted by current
   * priority and the front one is unblocked; the value goes up by one.
   */
  function Wake(s: Semaphore, threads: map<ThreadId, Thread>): (r: UpResult)
    ensures r.sema.value == s.value + 1
    ensures s.waiters == [] <==> r.woken == None
    ensures s.waiters == [] ==> r.sema.waiters == []
  {
    if s.waiters == [] then UpResult(Semaphore(s.value + 1, []), None)
    else
      var sorted := SortBy(s.waiters, PriorityRank(threads));
      UpResult(Semaphore(s.value + 1, sorted[1..]), Some(sorted[0]))
  }

  /**
   * The thread sema_up wakes is the highest-priority waiter, the earliest of
   * equals; the others stay, in some order, and no thread is added.
   */
  lemma WakeHighest(s: Semaphore, threads: map<ThreadId, Thread>)
    requires s.waiters != []
    ensures var r := Wake(s, threads);
      && r.woken == Some(s.waiters[FirstHighest(s.waiters, PriorityRank(threads))])
      && multiset(r.sema.waiters) == multiset(s.waiters) - multiset{r.woken.value}
      && (forall i | 0 <= i < |r.sema.waiters| :: r.sema.waiters[i] in s.waiters)
  {
    var sorted := SortBy(s.waiters, PriorityRank(threads));
    SortByHead(s.waiters, PriorityRank(threads));
    SortByPermutes(s.waiters, PriorityRank(threads));
    PopFront(sorted, s.waiters);
  }

  /** Taking the front off a permutation of s leaves s less that element, all of them from s. */
  lemma PopFront<T>(sorted: seq<T>, s: seq<T>)
    requires sorted != [] && multiset(sorted) == multiset(s)
    ensures multiset(sorted[1..]) == multiset(s) - multiset{sorted[0]}
    ensures forall i | 0 <= i < |sorted[1..]| :: sorted[1..][i] in s
  {
    assert sorted == [sorted[0]] + sorted[1..];
    forall i | 0 <= i < |sorted[1..]| ensures sorted[1..][i] in s {
      assert sorted[1..][i] in multiset(sorted);
    }
  }

  /** What cond_signal does to the semaphore table and to one waiter list q. */
  datatype SignalResult = SignalResult(semas: map<SemaId, Semaphore>, waiters: seq<SemaId>, woken: Option<ThreadId>)

  /**
   * cond_signal on the waiter list q: nothing when q is empty; otherwise q is
   * sorted by compare_sema_func, its front leaves the list and that
   * semaphore is upped.
   */
  function Signal(semas: map<SemaId, Semaphore>, q: seq<SemaId>, threads: map<ThreadId, Thread>): (r: SignalResult)
    ensures q == [] <==> r.woken.None? && r.semas == semas && r.waiters == q
    ensures q != [] ==> |r.waiters| == |q| - 1 && r.semas.Keys == semas.Keys
  {
    if q == [] then SignalResult(semas, q, None)
    else
      var sorted := SortBy(q, WaiterRank(semas, threads));
      if sorted[0] !in semas then SignalResult(semas, sorted[1..], None) // not in a valid kernel
      else
        var up := Wake(semas[sorted[0]], threads);
        SignalResult(semas[sorted[0] := up.sema], sorted[1..], up.woken)
  }

  /**
   * The entry cond_signal takes is the one whose front waiter has the highest
   * priority, the earliest of equals: it alone leaves the list, it alone is
   * upped, and the thread it wakes is the one sema_up wakes on it.
   */
  lemma SignalHighest(semas: map<SemaId, Semaphore>, q: seq<SemaId>, threads: map<ThreadId, Thread>)
    requires forall i | 0 <= i < |q| :: q[i] in semas
    requires q != []
    ensures var r := Signal(semas, q, threads);
      var w := q[FirstHighest(q, WaiterRank(semas, threads))];
      && multiset(r.waiters) == multiset(q) - multiset{w}
      && r.semas == semas[w := Wake(semas[w], threads).sema]
      && r.woken == Wake(semas[w], threads).woken
      && (forall i | 0 <= i < |r.waiters| :: r.waiters[i] in q)
  {
    var rank := WaiterRank(semas, threads);
    var sorted := SortBy(q, rank);
    SortByHead(q, rank);
    SortByPermutes(q, rank);
    PopFront(sorted, q);
  }

  /** cond_broadcast on the waiter list q: cond_signal until q is empty. */
  function Broadcast(semas: map<SemaId, Semaphore>, q: seq<SemaId>, threads: map<ThreadId, Thread>): (r: map<SemaId, Semaphore>)
    ensures r.Keys == semas.Keys
    decreases |q|
  {
    if q == [] then semas
    else
      var sg := Signal(semas, q, threads);
      Broadcast(sg.semas, sg.waiters, threads)
  }

  /** Every semaphore cond_broadcast ups keeps its waiters among the known threads. */
  lemma {:induction false} BroadcastKeepsValid(threads: map<ThreadId, Thread>, locks: map<LockId, Lock>,
                                               semas: map<SemaId, Semaphore>, conds: map<CondId, seq<SemaId>>, q: seq<SemaId>)
    requires TablesValid(threads, locks, semas, conds)
    requires forall i | 0 <= i < |q| :: q[i] in semas
    ensures TablesValid(threads, locks, Broadcast(semas, q, threads), conds)
    decreases |q|
  {
    if q != [] {
      var sg := Signal(semas, q, threads);
      SignalHighest(semas, q, threads);
      var w := q[FirstHighest(q, WaiterRank(semas, threads))];
      var up := Wake(semas[w], threads);
      if semas[w].waiters != [] {
        WakeHighest(semas[w], threads);
        assert WaitersKnown(semas[w], threads);
        forall i | 0 <= i < |up.sema.waiters| ensures up.sema.waiters[i] in threads {
          var j :| 0 <= j < |semas[w].waiters| && semas[w].waiters[j] == up.sema.waiters[i];
        }
      }
      SemaUpdateValid(threads, locks, semas, conds, w, up.sema);
      BroadcastKeepsValid(threads, locks, sg.semas, conds, sg.waiters);
    }
  }

  /**
   * One cond_signal moves one entry's worth from the list to the permits:
   * for every semaphore v, permits plus queued entries stay the same, and a
   * semaphore not in the list is neither changed nor queued.
   */
  lemma SignalCounts(semas: map<SemaId, Semaphore>, q: seq<SemaId>, threads: map<ThreadId, Thread>, v: SemaId)
    requires forall i | 0 <= i < |q| :: q[i] in semas
    requires q != [] && v in semas
    ensures var sg := Signal(semas, q, threads);
      && (forall i | 0 <= i < |sg.waiters| :: sg.waiters[i] in sg.semas)
      && v in sg.semas
      && sg.semas[v].value + multiset(sg.waiters)[v] == semas[v].value + multiset(q)[v]
      && (v !in q ==> sg.semas[v] == semas[v] && v !in multiset(sg.waiters))
  {
    SignalHighest(semas, q, threads);
  }

  /**
   * cond_broadcast gives every waiter semaphore one permit per entry it had
   * in the list and leaves every other semaphore as it was.
   */
  lemma {:induction false} BroadcastAccounts(semas: map<SemaId, Semaphore>, q: seq<SemaId>, threads: map<ThreadId, Thread>)
    requires forall i | 0 <= i < |q| :: q[i] in semas
    ensures var r := Broadcast(semas, q, threads);
      && (forall w | w in semas && w !in q :: r[w] == semas[w])
      && (forall w | w in semas :: r[w].value == semas[w].value + multiset(q)[w])
    decreases |q|
  {
    if q != [] {
      var sg := Signal(semas, q, threads);
      SignalHighest(semas, q, threads);
      BroadcastAccounts(sg.semas, sg.waiters, threads);
      var r := Broadcast(semas, q, threads);
      assert r == Broadcast(sg.semas, sg.waiters, threads);
      forall v | v in semas ensures r[v].value == semas[v].value + multiset(q)[v] {
        SignalCounts(semas, q, threads, v);
      }
      forall v | v in semas && v !in q ensures r[v] == semas[v] {
        SignalCounts(semas, q, threads, v);
      }
    }
  }

  /** Line 144: the caller yields when it unblocked a thread of strictly higher priority. */
  predicate Yields(threads: map<ThreadId, Thread>, cur: ThreadId, woken: Option<ThreadId>) {
    && woken.Some?
    && cur in threads && woken.value in threads
    && threads[cur].priority < threads[woken.value].priority
  }

  /** The tables after a step of a possibly blocking operation, and how the step ended. */
  datatype Outcome = Outcome(step: Step, threads: map<ThreadId, Thread>, locks: map<LockId, Lock>,
                             semas: map<SemaId, Semaphore>)

  /** Line 229: the caller records the lock it waits for. */
  function WaitingOn(threads: map<ThreadId, Thread>, cur: ThreadId, l: LockId): map<ThreadId, Thread>
    requires cur in threads
  {
    threads[cur := threads[cur].(waitLock := Some(l))]
  }

  /** Lines 232-234: donation happens only when the lock has a holder. */
  ghost function DonationFor(threads: map<ThreadId, Thread>, locks: map<LockId, Lock>, cur: ThreadId,
                             l: LockId, chain: seq<LockId>): (r: Donated)
    requires cur in threads && l in locks
    requires locks[l].holder.Some? ==> chain != [] && chain[0] == l && IsWaitChain(threads, locks, chain)
    ensures r.threads.Keys == threads.Keys && r.locks.Keys == locks.Keys
    ensures forall l' | l' in locks :: r.locks[l'].sema == locks[l'].sema
  {
    if locks[l].holder.None? then Donated(threads, locks, true)
    else
      DonateMonotone(threads, locks, cur, chain);
      Donate(threads, locks, cur, chain)
  }

  /**
   * Lines 236-239: a pass of sema_down on the lock's semaphore; when it
   * completes, the caller stops waiting, lists the lock as held and becomes
   * its holder.
   */
  function TakeLock(threads: map<ThreadId, Thread>, locks: map<LockId, Lock>, semas: map<SemaId, Semaphore>,
                    cur: ThreadId, l: LockId): (r: Outcome)
    requires cur in threads && l in locks && locks[l].sema in semas
    ensures r.threads.Keys == threads.Keys && r.locks.Keys == locks.Keys && r.semas.Keys == semas.Keys
    ensures r.step != Faulted
    ensures r.step == Done <==> semas[locks[l].sema].value > 0
    ensures r.step == Done ==>
      && r.locks[l].holder == Some(cur)
      && r.threads[cur].waitLock == None
      && r.threads[cur].holdingLocks == threads[cur].holdingLocks + [l]
      && r.semas[locks[l].sema].value == semas[locks[l].sema].value - 1
    ensures r.step == Done ==>
      && r.threads[cur].priority == threads[cur].priority
      && r.threads[cur].initPriority == threads[cur].initPriority
      && r.locks[l].maxVal == locks[l].maxVal && r.locks[l].sema == locks[l].sema
      && r.semas[locks[l].sema].waiters == semas[locks[l].sema].waiters
      && (forall t | t in threads && t != cur :: r.threads[t] == threads[t])
      && (forall l' | l' in locks && l' != l :: r.locks[l'] == locks[l'])
      && (forall s | s in semas && s != locks[l].sema :: r.semas[s] == semas[s])
    ensures r.step == Blocked ==>
      && r.threads == threads && r.locks == locks
      && r.semas == semas[locks[l].sema := Semaphore(semas[locks[l].sema].value, semas[locks[l].sema].waiters + [cur])]
  {
    var s := locks[l].sema;
    if semas[s].value == 0 then
      Outcome(Blocked, threads, locks, semas[s := semas[s].(waiters := semas[s].waiters + [cur])])
    else
      Outcome(Done,
              threads[cur := threads[cur].(waitLock := None, holdingLocks := threads[cur].holdingLocks + [l])],
              locks[l := locks[l].(holder := Some(cur))],
              semas[s := semas[s].(value := semas[s].value - 1)])
  }

  /** lock_held_by_current_thread, for any thread t in the role of the running one. */
  predicate HeldBy(locks: map<LockId, Lock>, l: LockId, t: ThreadId)
    requires l in locks
  {
    locks[l].holder == Some(t)
  }

  class Kernel {
    var threads: map<ThreadId, Thread>
    var locks: map<LockId, Lock>
    var semas: map<SemaId, Semaphore>
    var conds: map<CondId, seq<SemaId>>
    /** thread_current () */
    var current: ThreadId

    ghost predicate Valid()
      reads this
    {
      current in threads && TablesValid(threads, locks, semas, conds)
    }

    /** A kernel running its initial thread, with no lock, semaphore or condition. */
    constructor(main: ThreadId, priority: int)
      ensures Valid()
      ensures threads == map[main := Thread(priority, NoDonation, None, [])] && current == main
      ensures locks == map[] && semas == map[] && conds == map[]
    {
      threads := map[main := Thread(priority, NoDonation, None, [])];
      locks := map[];
      semas := map[];
      conds := map[];
      current := main;
    }

    /** A new thread as thread creation leaves it: no donation, no wait, no lock. */
    method CreateThread(t: ThreadId, priority: int)
      requires Valid() && t !in threads
      modifies this`threads
      ensures Valid()
      ensures threads == old(threads)[t := Thread(priority, NoDonation, None, [])]
    {
      ThreadUpdateValid(threads, locks, semas, conds, t, Thread(priority, NoDonation, None, []));
      threads := threads[t := Thread(priority, NoDonation, None, [])];
    }

    /** The scheduler switches to thread t. */
    method Dispatch(t: ThreadId)
      requires Valid() && t in threads
      modifies this`current
      ensures Valid() && current == t
    {
      current := t;
    }

    /** sema_init: the semaphore in slot s holds value permits and no waiter. */
    method SemaInit(s: SemaId, value: nat)
      requires Valid()
      modifies this`semas
      ensures Valid()
      ensures semas == old(semas)[s := Semaphore(value, [])]
    {
      SemaUpdateValid(threads, locks, semas, conds, s, Semaphore(value, []));
      semas := semas[s := Semaphore(value, [])];
    }

    /**
     * One pass of sema_down: with no permit the caller goes to the back of
     * the waiters and blocks; otherwise it takes one permit.
     */
    method SemaDown(s: SemaId) returns (r: Step)
      requires Valid() && s in semas
      modifies this`semas
      ensures Valid()
      ensures r != Faulted
      ensures r == Done <==> old(semas[s].value) > 0
      ensures r == Done ==> semas == old(semas)[s := Semaphore(old(semas[s].value) - 1, old(semas[s].waiters))]
      ensures r == Blocked ==> semas == old(semas)[s := Semaphore(0, old(semas[s].waiters) + [current])]
    {
      var sema := semas[s];
      assert WaitersKnown(sema, threads);
      if sema.value == 0 {
        SemaUpdateValid(threads, locks, semas, conds, s, sema.(waiters := sema.waiters + [current]));
        semas := semas[s := sema.(waiters := sema.waiters + [current])];
        return Blocked;
      }
      SemaUpdateValid(threads, locks, semas, conds, s, sema.(value := sema.value - 1));
      semas := semas[s := sema.(value := sema.value - 1)];
      r := Done;
    }

    /** sema_try_down: takes a permit exactly when one is there, and never blocks. */
    method SemaTryDown(s: SemaId) returns (success: bool)
      requires Valid() && s in semas
      modifies this`semas
      ensures Valid()
      ensures success <==> old(semas[s].value) > 0
      ensures success ==> semas == old(semas)[s := Semaphore(old(semas[s].value) - 1, old(semas[s].waiters))]
      ensures !success ==> semas == old(semas)
    {
      var sema := semas[s];
      if sema.value > 0 {
        assert WaitersKnown(sema, threads);
        SemaUpdateValid(threads, locks, semas, conds, s, sema.(value := sema.value - 1));
        semas := semas[s := sema.(value := sema.value - 1)];
        success := true;
      } else {
        success := false;
      }
    }

    /**
     * sema_up: wakes the highest-priority waiter (the earliest of equals),
     * adds a permit, and asks for a yield when the woken thread outranks the
     * caller.
     */
    method SemaUp(s: SemaId) returns (woken: Option<ThreadId>, preempt: bool)
      requires Valid() && s in semas
      modifies this`semas
      ensures Valid()
      ensures semas == old(semas)[s := Wake(old(semas[s]), threads).sema]
      ensures woken == Wake(old(semas[s]), threads).woken
      ensures preempt <==> Yields(threads, current, woken)
    {
      var sema := semas[s];
      var waiters := sema.waiters;
      woken := None;
      if waiters != [] {
        waiters := SortBy(waiters, PriorityRank(threads));
        woken := Some(waiters[0]);
        waiters := waiters[1..];
      }
      ghost var up := Wake(sema, threads);
      assert up.sema == Semaphore(sema.value + 1, waiters) && up.woken == woken;
      assert WaitersKnown(sema, threads);
      assert WaitersKnown(up.sema, threads) by {
        if sema.waiters != [] {
          WakeHighest(sema, threads);
          forall i | 0 <= i < |up.sema.waiters| ensures up.sema.waiters[i] in threads {
            var j :| 0 <= j < |sema.waiters| && sema.waiters[j] == up.sema.waiters[i];
          }
        }
      }
      SemaUpdateValid(threads, locks, semas, conds, s, up.sema);
      semas := semas[s := Semaphore(sema.value + 1, waiters)];
      preempt := woken.Some? && threads[current].priority < threads[woken.value].priority;
    }

    /** lock_init: no holder, a fresh semaphore with one permit, and the sentinel max_val. */
    method LockInit(l: LockId, s: SemaId)
      requires Valid() && s !in semas
      modifies this`locks, this`semas
      ensures Valid()
      ensures locks == old(locks)[l := Lock(None, s, NoDonation)]
      ensures semas == old(semas)[s := Semaphore(1, [])]
    {
      SemaUpdateValid(threads, locks, semas, conds, s, Semaphore(1, []));
      semas := semas[s := Semaphore(1, [])];
      LockUpdateValid(threads, locks, semas, conds, l, Lock(None, s, NoDonation));
      locks := locks[l := Lock(None, s, NoDonation)];
    }

    /** lock_held_by_current_thread */
    function HeldByCurrentThread(l: LockId): (held: bool)
      reads this`locks, this`current
      requires l in locks
      ensures held ==> HeldBy(locks, l, current)
      ensures held ==> forall t | t != current :: !HeldBy(locks, l, t)
      ensures !held ==> locks[l].holder != Some(current)
    {
      locks[l].holder == Some(current)
    }

    /**
     * donate_priority from lock l, walking the wait-for chain that starts at
     * l: each hop raises the lock's max_val and its holder's priority to the
     * running thread's priority. The result is false where the walk reads
     * through a NULL holder.
     */
    method DonatePriority(l: LockId, ghost chain: seq<LockId>) returns (ok: bool)
      requires current in threads && chain != [] && chain[0] == l && IsWaitChain(threads, locks, chain)
      modifies this`threads, this`locks
      ensures var d := Donate(old(threads), old(locks), old(current), chain);
        threads == d.threads && locks == d.locks && ok == d.ok
      decreases |chain|
    {
      ghost var threads0, locks0 := threads, locks;
      var cur := current;
      var p := threads[cur].priority;
      var lock := locks[l];
      lock := lock.(maxVal := if lock.maxVal < p then p else lock.maxVal);
      locks := locks[l := lock];
      assert locks == HopLocks(threads0, locks0, cur, l);
      if lock.holder.None? {
        DonateFaults(threads0, locks0, cur, chain);
        return false;
      }
      var o := lock.holder.value;
      var owner := threads[o];
      if owner.priority < p {
        var init := if owner.initPriority == NoDonation then owner.priority else owner.initPriority;
        owner := owner.(initPriority := init, priority := p);
      }
      assert owner == Raise(threads0[o], p);
      threads := threads[o := owner];
      assert threads == HopThreads(threads0, cur, o);
      if owner.waitLock.Some? {
        DonateStep(threads0, locks0, cur, chain);
        ok := DonatePriority(owner.waitLock.value, chain[1..]);
      } else {
        DonateEnds(threads0, locks0, cur, chain, o);
        ok := true;
      }
    }

    /**
     * lock_acquire: the caller records the lock it waits for, donates along
     * the wait-for chain when the lock is held, then takes the lock's
     * semaphore (see FinishAcquire). The ghost chain is the wait-for chain
     * from l once the caller waits on it; its existence is what makes the
     * donation walk end. Faulted: the walk read through a NULL holder.
     */
    method LockAcquire(l: LockId, ghost chain: seq<LockId>) returns (r: Step)
      requires Valid() && l in locks
      requires !HeldByCurrentThread(l)
      requires locks[l].holder.Some? ==>
        chain != [] && chain[0] == l && IsWaitChain(WaitingOn(threads, current, l), locks, chain)
      modifies this`threads, this`locks, this`semas
      ensures Valid()
      ensures var d := DonationFor(WaitingOn(old(threads), current, l), old(locks), current, l, chain);
        if d.ok then Outcome(r, threads, locks, semas) == TakeLock(d.threads, d.locks, old(semas), current, l)
        else r == Faulted && threads == d.threads && locks == d.locks && semas == old(semas)
    {
      var cur := current;
      assert HeldKnown(threads[cur], locks);
      ThreadUpdateValid(threads, locks, semas, conds, cur, threads[cur].(waitLock := Some(l)));
      threads := threads[cur := threads[cur].(waitLock := Some(l))];
      if locks[l].holder.Some? {
        ghost var threads0, locks0 := threads, locks;
        var ok := DonatePriority(l, chain);
        DonateKeepsValid(threads0, locks0, semas, conds, cur, chain);
        if !ok {
          return Faulted;
        }
      }
      r := FinishAcquire(l);
    }

    /**
     * Lines 236-239 of lock_acquire, which a thread woken on the lock's
     * semaphore runs again: a pass of sema_down and, when it completes, the
     * bookkeeping that makes the caller the holder.
     */
    method FinishAcquire(l: LockId) returns (r: Step)
      requires Valid() && l in locks
      modifies this`threads, this`locks, this`semas
      ensures Valid()
      ensures Outcome(r, threads, locks, semas) == TakeLock(old(threads), old(locks), old(semas), current, l)
    {
      r := SemaDown(locks[l].sema);
      if r == Blocked {
        return;
      }
      var cur := current;
      var t := threads[cur];
      t := t.(waitLock := None);
      t := t.(holdingLocks := t.holdingLocks + [l]);
      assert HeldKnown(threads[cur], locks);
      ThreadUpdateValid(threads, locks, semas, conds, cur, t);
      threads := threads[cur := t];
      LockUpdateValid(threads, locks, semas, conds, l, locks[l].(holder := Some(cur)));
      locks := locks[l := locks[l].(holder := Some(cur))];
    }

    /**
     * lock_try_acquire: takes the lock exactly when its semaphore has a
     * permit; it neither donates nor touches wait_lock or holding_locks.
     */
    method LockTryAcquire(l: LockId) returns (success: bool)
      requires Valid() && l in locks
      requires !HeldByCurrentThread(l)
      modifies this`locks, this`semas
      ensures Valid()
      ensures success <==> old(semas[locks[l].sema].value) > 0
      ensures success ==>
        && locks == old(locks)[l := old(locks[l]).(holder := Some(current))]
        && semas[locks[l].sema].value == old(semas[locks[l].sema].value) - 1
        && semas == old(semas)[locks[l].sema := semas[locks[l].sema]]
      ensures !success ==> locks == old(locks) && semas == old(semas)
      ensures semas[locks[l].sema].waiters == old(semas[locks[l].sema].waiters)
    {
      success := SemaTryDown(locks[l].sema);
      if success {
        locks := locks[l := locks[l].(holder := Some(current))];
      }
    }

    /**
     * priority_back for the holder of l: drops the donation recorded for it
     * as Restore describes, from the locks it still holds.
     */
    method PriorityBack(l: LockId)
      requires Valid() && l in locks && locks[l].holder.Some?
      modifies this`threads
      ensures Valid()
      ensures var o := locks[l].holder.value; threads == old(threads)[o := Restore(old(threads[o]), locks)]
    {
      var o := locks[l].holder.value;
      var t := threads[o];
      if t.initPriority == NoDonation {
        return;
      }
      if t.holdingLocks != [] {
        var maxLock := MaxHeld(t.holdingLocks, locks);
        threads := threads[o := t.(priority := maxLock)];
      } else {
        threads := threads[o := t.(priority := t.initPriority, initPriority := NoDonation)];
      }
    }

    /**
     * lock_release up to the sema_up: the lock leaves the caller's
     * holding_locks, the donation is undone, and the lock's semaphore is
     * upped. The holder is cleared only when sema_up did not yield; when it
     * yields, line 308 runs later, in LockReleaseResume. max_val is kept.
     */
    method LockRelease(l: LockId) returns (woken: Option<ThreadId>, preempt: bool)
      requires Valid() && l in locks
      requires HeldByCurrentThread(l)
      modifies this`threads, this`locks, this`semas
      ensures Valid()
      ensures locks == if preempt then old(locks) else old(locks)[l := old(locks[l]).(holder := None)]
      ensures threads == old(threads)[current := ReleaseBookkeeping(old(threads[current]), l, old(locks))]
      ensures var up := Wake(old(semas[locks[l].sema]), threads);
        semas == old(semas)[old(locks[l].sema) := up.sema] && woken == up.woken
      ensures preempt <==> Yields(threads, current, woken)
    {
      var cur := current;
      var t := threads[cur];
      t := t.(holdingLocks := RemoveLock(t.holdingLocks, l));
      ThreadUpdateValid(threads, locks, semas, conds, cur, t);
      threads := threads[cur := t];
      ghost var threads1 := threads;
      ghost var target := old(threads)[cur := ReleaseBookkeeping(old(threads[cur]), l, locks)];
      assert Restore(t, locks) == ReleaseBookkeeping(old(threads[cur]), l, locks);
      assert threads1[cur := Restore(t, locks)] == target;
      PriorityBack(l);
      assert threads == target;
      woken, preempt := SemaUp(locks[l].sema);
      if !preempt {
        LockUpdateValid(threads, locks, semas, conds, l, locks[l].(holder := None));
        locks := locks[l := locks[l].(holder := None)];
      }
    }

    /** Line 308 of lock_release, run when the releasing thread is scheduled again after yielding. */
    method LockReleaseResume(l: LockId)
      requires Valid() && l in locks
      modifies this`locks
      ensures Valid()
      ensures locks == old(locks)[l := old(locks[l]).(holder := None)]
    {
      locks := locks[l := locks[l].(holder := None)];
    }

    /** cond_init: the condition variable in slot c has no waiter. */
    method CondInit(c: CondId)
      requires Valid()
      modifies this`conds
      ensures Valid()
      ensures conds == old(conds)[c := []]
    {
      conds := conds[c := []];
    }

    /**
     * cond_wait up to its sleep: a waiter semaphore (slot w) with no permit
     * is inserted in order into the condition's waiters, and the lock is
     * released. The waiter's semaphore has no thread yet, so the ordered
     * insert puts it at the back. The caller then runs SemaDown(w) and, once
     * woken, LockAcquire(l, ...).
     */
    method CondWait(c: CondId, l: LockId, w: SemaId) returns (woken: Option<ThreadId>, preempt: bool)
      requires Valid() && c in conds && l in locks && w !in semas
      requires HeldByCurrentThread(l)
      modifies this`threads, this`locks, this`semas, this`conds
      ensures Valid()
      ensures conds == old(conds)[c := old(conds[c]) + [w]]
      ensures locks == if preempt then old(locks) else old(locks)[l := old(locks[l]).(holder := None)]
      ensures threads == old(threads)[current := ReleaseBookkeeping(old(threads[current]), l, old(locks))]
      ensures var up := Wake(old(semas[locks[l].sema]), threads);
        semas == old(semas)[w := Semaphore(0, [])][old(locks[l].sema) := up.sema] && woken == up.woken
      ensures preempt <==> Yields(threads, current, woken)
    {
      SemaUpdateValid(threads, locks, semas, conds, w, Semaphore(0, []));
      semas := semas[w := Semaphore(0, [])];
      InsertWithoutWaiterAppends(conds[c], w, WaiterRank(semas, threads));
      CondUpdateValid(threads, locks, semas, conds, c, conds[c] + [w]);
      conds := conds[c := InsertOrdered(conds[c], w, WaiterRank(semas, threads))];
      woken, preempt := LockRelease(l);
    }

    /**
     * cond_signal: nothing without waiters; otherwise the waiter whose
     * semaphore has the highest-priority front thread (the earliest of
     * equals) leaves the list and its semaphore is upped.
     */
    method CondSignal(c: CondId, l: LockId) returns (woken: Option<ThreadId>, preempt: bool)
      requires Valid() && c in conds && l in locks
      requires HeldByCurrentThread(l)
      modifies this`semas, this`conds
      ensures Valid()
      ensures var sg := Signal(old(semas), old(conds[c]), threads);
        conds == old(conds)[c := sg.waiters] && semas == sg.semas && woken == sg.woken
      ensures preempt <==> Yields(threads, current, woken)
    {
      woken, preempt := None, false;
      var waiters := conds[c];
      ghost var sg := Signal(semas, waiters, threads);
      if waiters != [] {
        var rank := WaiterRank(semas, threads);
        var sorted := SortBy(waiters, rank);
        SortByPermutes(waiters, rank);
        PopFront(sorted, waiters);
        var w := sorted[0];
        assert w in semas by {
          assert w in multiset(waiters);
          assert TablesValid(threads, locks, semas, conds);
        }
        ghost var up := Wake(semas[w], threads);
        assert sg == SignalResult(semas[w := up.sema], sorted[1..], up.woken);
        CondUpdateValid(threads, locks, semas, conds, c, sorted[1..]);
        conds := conds[c := sorted[1..]];
        woken, preempt := SemaUp(w);
      }
    }

    /**
     * cond_broadcast: signals until the condition has no waiter. Every
     * waiter semaphore gets one permit per entry it had, and no other
     * semaphore changes.
     */
    method CondBroadcast(c: CondId, l: LockId)
      requires Valid() && c in conds && l in locks
      requires conds[c] != [] ==> HeldByCurrentThread(l)
      modifies this`semas, this`conds
      ensures Valid()
      ensures conds == old(conds)[c := []]
      ensures semas == Broadcast(old(semas), old(conds[c]), threads)
    {
      var table, waiters := semas, conds[c];
      while waiters != []
        invariant Broadcast(table, waiters, threads) == Broadcast(semas, conds[c], threads)
        decreases |waiters|
      {
        var signalled := Signal(table, waiters, threads);
        table, waiters := signalled.semas, signalled.waiters;
      }
      BroadcastKeepsValid(threads, locks, semas, conds, conds[c]);
      CondUpdateValid(threads, locks, table, conds, c, []);
      semas, conds := table, conds[c := []];
    }
  }
}
