/**
 * The priority donation engine of synch.c as functions on the thread and
 * lock tables: donate_priority (one hop, and the walk along the wait-for
 * chain) and priority_back, with the list removal lock_release does first.
 */
module Donation {
  import opened SynchTypes

  /**
   * c is the wait-for chain donate_priority walks from c[0]: each lock's
   * holder waits on the next lock, and the walk stops at a lock without a
   * holder or at a holder that waits on nothing. That such a sequence exists
   * says the walk ends: it states that the wait-for graph has no cycle there.
   */
  ghost predicate IsWaitChain(threads: map<ThreadId, Thread>, locks: map<LockId, Lock>, c: seq<LockId>)
    decreases |c|
  {
    && |c| > 0
    && (forall i | 0 <= i < |c| :: c[i] in locks)
    && (forall i | 0 <= i < |c| :: locks[c[i]].holder.Some? ==> locks[c[i]].holder.value in threads)
    && match locks[c[0]].holder
       case None => |c| == 1
       case Some(o) =>
         && o in threads
         && match threads[o].waitLock
            case None => |c| == 1
            case Some(next) => |c| > 1 && c[1] == next && IsWaitChain(threads, locks, c[1..])
  }

  /** The two table pairs agree on every holder and every wait_lock. */
  ghost predicate SameWaitGraph(t1: map<ThreadId, Thread>, l1: map<LockId, Lock>,
                                t2: map<ThreadId, Thread>, l2: map<LockId, Lock>)
  {
    && t1.Keys == t2.Keys
    && l1.Keys == l2.Keys
    && (forall t | t in t1 :: t1[t].waitLock == t2[t].waitLock)
    && (forall l | l in l1 :: l1[l].holder == l2[l].holder)
  }

  /** A wait-for chain depends only on holders and wait_locks. */
  lemma {:induction false} WaitChainFrame(t1: map<ThreadId, Thread>, l1: map<LockId, Lock>,
                                          t2: map<ThreadId, Thread>, l2: map<LockId, Lock>, c: seq<LockId>)
    requires SameWaitGraph(t1, l1, t2, l2)
    requires IsWaitChain(t1, l1, c)
    ensures IsWaitChain(t2, l2, c)
    decreases |c|
  {
    if |c| > 1 {
      WaitChainFrame(t1, l1, t2, l2, c[1..]);
    }
  }

  /** Every suffix of a wait-for chain is the chain from its first lock. */
  lemma {:induction false} WaitChainSuffix(threads: map<ThreadId, Thread>, locks: map<LockId, Lock>, c: seq<LockId>, i: nat)
    requires IsWaitChain(threads, locks, c)
    requires i < |c|
    ensures IsWaitChain(threads, locks, c[i..])
    decreases i
  {
    if i > 0 {
      WaitChainSuffix(threads, locks, c[1..], i - 1);
      assert c[1..][i - 1..] == c[i..];
    }
  }

  /** The walk is deterministic: two chains from the same lock are the same chain. */
  lemma {:induction false} WaitChainUnique(threads: map<ThreadId, Thread>, locks: map<LockId, Lock>, c1: seq<LockId>, c2: seq<LockId>)
    requires IsWaitChain(threads, locks, c1)
    requires IsWaitChain(threads, locks, c2)
    requires c1[0] == c2[0]
    ensures c1 == c2
    decreases |c1|
  {
    if |c1| > 1 {
      WaitChainUnique(threads, locks, c1[1..], c2[1..]);
      assert c1 == [c1[0]] + c1[1..];
      assert c2 == [c2[0]] + c2[1..];
    }
  }

  /** t holds none of the locks of the chain. */
  ghost predicate OffChain(locks: map<LockId, Lock>, c: seq<LockId>, t: ThreadId) {
    forall i | 0 <= i < |c| && c[i] in locks :: locks[c[i]].holder != Some(t)
  }

  /**
   * A thread that waits on the first lock of a (finite) chain holds no lock
   * of it: otherwise the walk would come back to its start and never end.
   */
  lemma DonorOffChain(threads: map<ThreadId, Thread>, locks: map<LockId, Lock>, cur: ThreadId, c: seq<LockId>)
    requires IsWaitChain(threads, locks, c)
    requires cur in threads && threads[cur].waitLock == Some(c[0])
    ensures OffChain(locks, c, cur)
  {
    forall i | 0 <= i < |c| && c[i] in locks ensures locks[c[i]].holder != Some(cur) {
      if locks[c[i]].holder == Some(cur) {
        WaitChainSuffix(threads, locks, c, i);
        WaitChainUnique(threads, locks, c, c[i..][1..]);
        assert false;
      }
    }
  }

  /**
   * Lines 254-259 of donate_priority for the owner o of the lock when the
   * requester has priority p: o's priority becomes the larger of the two;
   * init_priority records o's old priority only if it held the sentinel and
   * a raise happens.
   */
  function Raise(o: Thread, p: int): (r: Thread)
    ensures r.priority >= o.priority && r.priority >= p
    ensures r.priority == o.priority || r.priority == p
    ensures r.initPriority == (if o.initPriority == NoDonation && o.priority < p then o.priority else o.initPriority)
    ensures r.waitLock == o.waitLock && r.holdingLocks == o.holdingLocks
  {
    if o.priority < p then
      o.(initPriority := if o.initPriority == NoDonation then o.priority else o.initPriority, priority := p)
    else o
  }

  /** The tables after a donation, and whether it finished without dereferencing a NULL holder. */
  datatype Donated = Donated(threads: map<ThreadId, Thread>, locks: map<LockId, Lock>, ok: bool)

  /**
   * donate_priority along the chain c, for the requesting thread cur, whose
   * priority is read afresh at every hop as the source does. At a lock
   * without a holder the source reads owner->priority through NULL after
   * having raised max_val: the result has ok == false there.
   */
  function Donate(threads: map<ThreadId, Thread>, locks: map<LockId, Lock>, cur: ThreadId, c: seq<LockId>): (r: Donated)
    requires cur in threads
    requires IsWaitChain(threads, locks, c)
    ensures SameWaitGraph(threads, locks, r.threads, r.locks)
    decreases |c|
  {
    var locks' := HopLocks(threads, locks, cur, c[0]);
    match locks[c[0]].holder
    case None => Donated(threads, locks', false)
    case Some(o) =>
      var threads' := HopThreads(threads, cur, o);
      if |c| == 1 then Donated(threads', locks', true)
      else
        WaitChainFrame(threads, locks, threads', locks', c[1..]);
        Donate(threads', locks', cur, c[1..])
  }

  /**
   * Donation only raises: no priority and no max_val goes down, and no
   * holding_locks list and no lock's semaphore changes.
   */
  lemma DonateMonotone(threads: map<ThreadId, Thread>, locks: map<LockId, Lock>, cur: ThreadId, c: seq<LockId>)
    requires cur in threads
    requires IsWaitChain(threads, locks, c)
    ensures var r := Donate(threads, locks, cur, c);
      && (forall t | t in threads :: r.threads[t].holdingLocks == threads[t].holdingLocks)
      && (forall t | t in threads :: r.threads[t].priority >= threads[t].priority)
      && (forall l | l in locks :: r.locks[l].sema == locks[l].sema && r.locks[l].maxVal >= locks[l].maxVal)
  {
    DonateRaisesThreads(threads, locks, cur, c);
    DonateRaisesLocks(threads, locks, cur, c);
  }

  /** The thread half of DonateMonotone. */
  lemma {:induction false} DonateRaisesThreads(threads: map<ThreadId, Thread>, locks: map<LockId, Lock>, cur: ThreadId, c: seq<LockId>)
    requires cur in threads
    requires IsWaitChain(threads, locks, c)
    ensures var r := Donate(threads, locks, cur, c);
      forall t | t in threads :: r.threads[t].holdingLocks == threads[t].holdingLocks && r.threads[t].priority >= threads[t].priority
    decreases |c|
  {
    if |c| > 1 {
      DonateStep(threads, locks, cur, c);
      var threads' := HopThreads(threads, cur, locks[c[0]].holder.value);
      DonateRaisesThreads(threads', HopLocks(threads, locks, cur, c[0]), cur, c[1..]);
      assert forall t | t in threads :: t in threads';
    }
  }

  /** The lock half of DonateMonotone. */
  lemma {:induction false} DonateRaisesLocks(threads: map<ThreadId, Thread>, locks: map<LockId, Lock>, cur: ThreadId, c: seq<LockId>)
    requires cur in threads
    requires IsWaitChain(threads, locks, c)
    ensures var r := Donate(threads, locks, cur, c);
      forall l | l in locks :: r.locks[l].sema == locks[l].sema && r.locks[l].maxVal >= locks[l].maxVal
    decreases |c|
  {
    if |c| > 1 {
      DonateStep(threads, locks, cur, c);
      var locks' := HopLocks(threads, locks, cur, c[0]);
      DonateRaisesLocks(HopThreads(threads, cur, locks[c[0]].holder.value), locks', cur, c[1..]);
      assert forall l | l in locks :: l in locks';
    }
  }

  /** Lines 250-251: the lock's max_val becomes at least the requester's priority. */
  function HopLocks(threads: map<ThreadId, Thread>, locks: map<LockId, Lock>, cur: ThreadId, l: LockId): map<LockId, Lock>
    requires cur in threads && l in locks
  {
    var p := threads[cur].priority;
    locks[l := locks[l].(maxVal := if locks[l].maxVal < p then p else locks[l].maxVal)]
  }

  /** Lines 254-259: the owner o is raised to the requester's priority. */
  function HopThreads(threads: map<ThreadId, Thread>, cur: ThreadId, o: ThreadId): map<ThreadId, Thread>
    requires cur in threads && o in threads
  {
    threads[o := Raise(threads[o], threads[cur].priority)]
  }

  /** One hop of the walk, then the walk from the next lock. */
  lemma DonateStep(threads: map<ThreadId, Thread>, locks: map<LockId, Lock>, cur: ThreadId, c: seq<LockId>)
    requires cur in threads
    requires IsWaitChain(threads, locks, c)
    requires |c| > 1
    ensures locks[c[0]].holder.Some?
    ensures var threads', locks' := HopThreads(threads, cur, locks[c[0]].holder.value), HopLocks(threads, locks, cur, c[0]);
      && IsWaitChain(threads', locks', c[1..])
      && Donate(threads, locks, cur, c) == Donate(threads', locks', cur, c[1..])
  {
    var threads', locks' := HopThreads(threads, cur, locks[c[0]].holder.value), HopLocks(threads, locks, cur, c[0]);
    WaitChainFrame(threads, locks, threads', locks', c[1..]);
  }

  /** A walk that reaches a lock without a holder raises its max_val and faults there. */
  lemma DonateFaults(threads: map<ThreadId, Thread>, locks: map<LockId, Lock>, cur: ThreadId, c: seq<LockId>)
    requires cur in threads
    requires IsWaitChain(threads, locks, c)
    requires locks[c[0]].holder.None?
    ensures Donate(threads, locks, cur, c) == Donated(threads, HopLocks(threads, locks, cur, c[0]), false)
  {
  }

  /** A walk whose holder waits on nothing ends after raising it. */
  lemma DonateEnds(threads: map<ThreadId, Thread>, locks: map<LockId, Lock>, cur: ThreadId, c: seq<LockId>, o: ThreadId)
    requires cur in threads
    requires IsWaitChain(threads, locks, c)
    requires locks[c[0]].holder == Some(o) && threads[o].waitLock.None?
    ensures Donate(threads, locks, cur, c) == Donated(HopThreads(threads, cur, o), HopLocks(threads, locks, cur, c[0]), true)
  {
  }

  /** t holds one of the locks of the chain. */
  ghost predicate OnChain(locks: map<LockId, Lock>, c: seq<LockId>, t: ThreadId) {
    exists i | 0 <= i < |c| && c[i] in locks :: locks[c[i]].holder == Some(t)
  }

  /** No thread other than the holders of the chain's locks changes, and no lock outside the chain. */
  lemma DonateLeavesOthers(threads: map<ThreadId, Thread>, locks: map<LockId, Lock>, cur: ThreadId, c: seq<LockId>)
    requires cur in threads
    requires IsWaitChain(threads, locks, c)
    ensures var r := Donate(threads, locks, cur, c);
      && (forall t | t in threads && !OnChain(locks, c, t) :: r.threads[t] == threads[t])
      && (forall l | l in locks && l !in c :: r.locks[l] == locks[l])
  {
    DonateLeavesOtherThreads(threads, locks, cur, c);
    DonateLeavesOtherLocks(threads, locks, cur, c);
  }

  /** The thread half of DonateLeavesOthers. */
  lemma {:induction false} DonateLeavesOtherThreads(threads: map<ThreadId, Thread>, locks: map<LockId, Lock>, cur: ThreadId, c: seq<LockId>)
    requires cur in threads
    requires IsWaitChain(threads, locks, c)
    ensures var r := Donate(threads, locks, cur, c);
      forall t | t in threads && !OnChain(locks, c, t) :: r.threads[t] == threads[t]
    decreases |c|
  {
    if |c| > 1 {
      DonateStep(threads, locks, cur, c);
      var o := locks[c[0]].holder.value;
      var threads', locks' := HopThreads(threads, cur, o), HopLocks(threads, locks, cur, c[0]);
      DonateLeavesOtherThreads(threads', locks', cur, c[1..]);
      var r := Donate(threads', locks', cur, c[1..]);
      forall t | t in threads && !OnChain(locks, c, t) ensures r.threads[t] == threads[t] {
        OffChainRest(threads, locks, cur, c, t);
      }
    }
  }

  /** A thread holding no lock of the chain is not the first holder and holds no lock of the rest. */
  lemma OffChainRest(threads: map<ThreadId, Thread>, locks: map<LockId, Lock>, cur: ThreadId, c: seq<LockId>, t: ThreadId)
    requires cur in threads
    requires IsWaitChain(threads, locks, c)
    requires |c| > 1 && !OnChain(locks, c, t)
    ensures locks[c[0]].holder.Some? && locks[c[0]].holder.value != t
    ensures !OnChain(HopLocks(threads, locks, cur, c[0]), c[1..], t)
  {
    var locks' := HopLocks(threads, locks, cur, c[0]);
    assert c[0] in locks;
    forall i | 0 <= i < |c[1..]| && c[1..][i] in locks' ensures locks'[c[1..][i]].holder != Some(t) {
      assert c[1..][i] == c[i + 1];
    }
  }

  /** The lock half of DonateLeavesOthers. */
  lemma {:induction false} DonateLeavesOtherLocks(threads: map<ThreadId, Thread>, locks: map<LockId, Lock>, cur: ThreadId, c: seq<LockId>)
    requires cur in threads
    requires IsWaitChain(threads, locks, c)
    ensures var r := Donate(threads, locks, cur, c);
      forall l | l in locks && l !in c :: r.locks[l] == locks[l]
    decreases |c|
  {
    if |c| > 1 {
      DonateStep(threads, locks, cur, c);
      var threads', locks' := HopThreads(threads, cur, locks[c[0]].holder.value), HopLocks(threads, locks, cur, c[0]);
      DonateLeavesOtherLocks(threads', locks', cur, c[1..]);
      forall l | l in locks && l !in c ensures Donate(threads', locks', cur, c[1..]).locks[l] == locks[l] {
        assert l !in c[1..];
      }
    }
  }

  /** The walk ends without reading through NULL exactly when the chain's last lock has a holder. */
  lemma {:induction false} DonateOkIffLastHeld(threads: map<ThreadId, Thread>, locks: map<LockId, Lock>, cur: ThreadId, c: seq<LockId>)
    requires cur in threads
    requires IsWaitChain(threads, locks, c)
    ensures Donate(threads, locks, cur, c).ok <==> locks[c[|c| - 1]].holder.Some?
    decreases |c|
  {
    if |c| > 1 {
      DonateStep(threads, locks, cur, c);
      var threads', locks' := HopThreads(threads, cur, locks[c[0]].holder.value), HopLocks(threads, locks, cur, c[0]);
      DonateOkIffLastHeld(threads', locks', cur, c[1..]);
      assert c[1..][|c[1..]| - 1] == c[|c| - 1];
    }
  }

  /**
   * Donation from a thread that holds no lock of the chain: every lock of the
   * chain ends with max_val at least the donor's priority.
   */
  lemma {:induction false} DonateRaisesMaxVal(threads: map<ThreadId, Thread>, locks: map<LockId, Lock>, cur: ThreadId, c: seq<LockId>)
    requires cur in threads
    requires IsWaitChain(threads, locks, c)
    requires OffChain(locks, c, cur)
    ensures forall i | 0 <= i < |c| :: Donate(threads, locks, cur, c).locks[c[i]].maxVal >= threads[cur].priority
    decreases |c|
  {
    var p := threads[cur].priority;
    if |c| > 1 {
      DonateStep(threads, locks, cur, c);
      var o := locks[c[0]].holder.value;
      var threads', locks' := HopThreads(threads, cur, o), HopLocks(threads, locks, cur, c[0]);
      OffChainStep(threads, locks, cur, c);
      DonateRaisesMaxVal(threads', locks', cur, c[1..]);
      DonateMonotone(threads', locks', cur, c[1..]);
      var r := Donate(threads', locks', cur, c[1..]);
      forall i | 0 <= i < |c| ensures r.locks[c[i]].maxVal >= p {
        if i > 0 { assert c[i] == c[1..][i - 1]; }
      }
    }
  }

  /**
   * Donation from a thread that holds no lock of the chain: every holder
   * along the chain ends with at least the donor's priority.
   */
  lemma {:induction false} DonateRaisesHolders(threads: map<ThreadId, Thread>, locks: map<LockId, Lock>, cur: ThreadId, c: seq<LockId>)
    requires cur in threads
    requires IsWaitChain(threads, locks, c)
    requires OffChain(locks, c, cur)
    ensures forall i, o | 0 <= i < |c| && locks[c[i]].holder == Some(o) ::
      Donate(threads, locks, cur, c).threads[o].priority >= threads[cur].priority
    decreases |c|
  {
    var p := threads[cur].priority;
    if |c| > 1 {
      DonateStep(threads, locks, cur, c);
      var o := locks[c[0]].holder.value;
      var threads', locks' := HopThreads(threads, cur, o), HopLocks(threads, locks, cur, c[0]);
      OffChainStep(threads, locks, cur, c);
      DonateRaisesHolders(threads', locks', cur, c[1..]);
      DonateMonotone(threads', locks', cur, c[1..]);
      var r := Donate(threads', locks', cur, c[1..]);
      forall i, o' | 0 <= i < |c| && locks[c[i]].holder == Some(o') ensures r.threads[o'].priority >= p {
        if i > 0 { assert c[i] == c[1..][i - 1]; }
      }
    }
  }

  /** After the first hop the donor still has its priority and still holds no lock of the rest of the chain. */
  lemma OffChainStep(threads: map<ThreadId, Thread>, locks: map<LockId, Lock>, cur: ThreadId, c: seq<LockId>)
    requires cur in threads
    requires IsWaitChain(threads, locks, c)
    requires OffChain(locks, c, cur)
    requires |c| > 1
    ensures locks[c[0]].holder.Some?
    ensures var threads', locks' := HopThreads(threads, cur, locks[c[0]].holder.value), HopLocks(threads, locks, cur, c[0]);
      threads'[cur].priority == threads[cur].priority && OffChain(locks', c[1..], cur)
  {
    var locks' := HopLocks(threads, locks, cur, c[0]);
    forall i | 0 <= i < |c[1..]| && c[1..][i] in locks' ensures locks'[c[1..][i]].holder != Some(cur) {
      assert c[1..][i] == c[i + 1];
    }
  }

  /**
   * Donation as lock_acquire starts it: the caller cur already waits on the
   * first lock. Then cur is off the chain, so every holder along the chain
   * ends with at least cur's priority, and cur itself is unchanged.
   */
  lemma DonationFromWaiter(threads: map<ThreadId, Thread>, locks: map<LockId, Lock>, cur: ThreadId, c: seq<LockId>)
    requires IsWaitChain(threads, locks, c)
    requires cur in threads && threads[cur].waitLock == Some(c[0])
    ensures var r := Donate(threads, locks, cur, c);
      && r.threads[cur] == threads[cur]
      && (forall i, o | 0 <= i < |c| && locks[c[i]].holder == Some(o) :: r.threads[o].priority >= threads[cur].priority)
      && (forall t | t in threads && !OnChain(locks, c, t) :: r.threads[t] == threads[t])
  {
    DonorOffChain(threads, locks, cur, c);
    DonateRaisesHolders(threads, locks, cur, c);
    DonateLeavesOthers(threads, locks, cur, c);
  }

  /**
   * list_remove of a lock from a holding_locks list: the list loses that one
   * entry. A lock that is not in the list leaves it unchanged.
   */
  function RemoveLock(hl: seq<LockId>, l: LockId): (r: seq<LockId>)
    ensures l !in hl ==> r == hl
    ensures forall i | 0 <= i < |r| :: r[i] in hl
  {
    if hl == [] then []
    else if hl[0] == l then hl[1..]
    else [hl[0]] + RemoveLock(hl[1..], l)
  }

  /** list_remove takes out exactly one entry of the released lock. */
  lemma {:induction false} RemoveLockDrops(hl: seq<LockId>, l: LockId)
    requires l in hl
    ensures multiset(RemoveLock(hl, l)) == multiset(hl) - multiset{l}
  {
    assert hl == [hl[0]] + hl[1..];
    if hl[0] != l {
      RemoveLockDrops(hl[1..], l);
    }
  }

  /** The largest max_val among the given locks. */
  function MaxHeld(hl: seq<LockId>, locks: map<LockId, Lock>): int
    requires hl != []
    requires forall i | 0 <= i < |hl| :: hl[i] in locks
  {
    if |hl| == 1 then locks[hl[0]].maxVal
    else
      var m := MaxHeld(hl[1..], locks);
      if locks[hl[0]].maxVal > m then locks[hl[0]].maxVal else m
  }

  /** MaxHeld is the largest max_val of the listed locks: an upper bound that one of them attains. */
  lemma {:induction false} MaxHeldIsMax(hl: seq<LockId>, locks: map<LockId, Lock>)
    requires hl != []
    requires forall i | 0 <= i < |hl| :: hl[i] in locks
    ensures forall i | 0 <= i < |hl| :: locks[hl[i]].maxVal <= MaxHeld(hl, locks)
    ensures exists i | 0 <= i < |hl| :: locks[hl[i]].maxVal == MaxHeld(hl, locks)
  {
    if |hl| > 1 {
      MaxHeldIsMax(hl[1..], locks);
      assert forall i | 1 <= i < |hl| :: hl[i] == hl[1..][i - 1];
      if locks[hl[0]].maxVal <= MaxHeld(hl[1..], locks) {
        var k :| 0 <= k < |hl[1..]| && locks[hl[1..][k]].maxVal == MaxHeld(hl[1..], locks);
        assert hl[k + 1] == hl[1..][k];
        assert locks[hl[k + 1]].maxVal == MaxHeld(hl, locks);
      } else {
        assert locks[hl[0]].maxVal == MaxHeld(hl, locks);
      }
    } else {
      assert locks[hl[0]].maxVal == MaxHeld(hl, locks);
    }
  }

  /**
   * priority_back for the owner t, whose holding_locks no longer lists the
   * released lock: nothing when no donation is recorded; with no lock left,
   * back to init_priority and the sentinel; otherwise the largest max_val of
   * the locks still held, keeping init_priority.
   */
  function Restore(t: Thread, locks: map<LockId, Lock>): (r: Thread)
    requires HeldKnown(t, locks)
    ensures r.waitLock == t.waitLock && r.holdingLocks == t.holdingLocks
  {
    if t.initPriority == NoDonation then t
    else if t.holdingLocks != [] then t.(priority := MaxHeld(t.holdingLocks, locks))
    else t.(priority := t.initPriority, initPriority := NoDonation)
  }

  /** The three cases of priority_back, stated by what the new priority is. */
  lemma RestoreCases(t: Thread, locks: map<LockId, Lock>)
    requires HeldKnown(t, locks)
    ensures var r := Restore(t, locks);
      && (t.initPriority == NoDonation ==> r == t)
      && (t.initPriority != NoDonation && t.holdingLocks == [] ==>
            r.priority == t.initPriority && r.initPriority == NoDonation)
      && (t.initPriority != NoDonation && t.holdingLocks != [] ==>
            && r.initPriority == t.initPriority
            && (forall i | 0 <= i < |t.holdingLocks| :: locks[t.holdingLocks[i]].maxVal <= r.priority)
            && (exists i | 0 <= i < |t.holdingLocks| :: locks[t.holdingLocks[i]].maxVal == r.priority))
  {
    if t.initPriority != NoDonation && t.holdingLocks != [] {
      MaxHeldIsMax(t.holdingLocks, locks);
    }
  }

  /** Every lock in the thread's holding_locks is in the lock table. */
  predicate HeldKnown(t: Thread, locks: map<LockId, Lock>) {
    forall i | 0 <= i < |t.holdingLocks| :: t.holdingLocks[i] in locks
  }

  /** What lock_release does to its caller before sema_up: lines 302 and 304. */
  function ReleaseBookkeeping(t: Thread, l: LockId, locks: map<LockId, Lock>): (r: Thread)
    requires HeldKnown(t, locks)
    ensures HeldKnown(r, locks)
    ensures r.waitLock == t.waitLock
    ensures r.holdingLocks == RemoveLock(t.holdingLocks, l)
  {
    Restore(t.(holdingLocks := RemoveLock(t.holdingLocks, l)), locks)
  }

  /** The thread record after releasing the given locks one after another. */
  function ReleaseInOrder(t: Thread, order: seq<LockId>, locks: map<LockId, Lock>): (r: Thread)
    requires HeldKnown(t, locks)
    ensures HeldKnown(r, locks)
    decreases |order|
  {
    if order == [] then t
    else ReleaseInOrder(ReleaseBookkeeping(t, order[0], locks), order[1..], locks)
  }

  /**
   * Donation is undone by releasing: a thread that releases all the locks it
   * holds, in any order, ends with no lock, the sentinel in init_priority and
   * the priority it had before its first donation (its current priority when
   * none was recorded).
   */
  lemma {:induction false} ReleasingAllRestoresBase(t: Thread, order: seq<LockId>, locks: map<LockId, Lock>)
    requires HeldKnown(t, locks)
    requires order != [] && multiset(order) == multiset(t.holdingLocks)
    ensures var r := ReleaseInOrder(t, order, locks);
      && r.holdingLocks == []
      && r.initPriority == NoDonation
      && r.priority == (if t.initPriority == NoDonation then t.priority else t.initPriority)
    decreases |order|
  {
    var l := order[0];
    assert l in multiset(t.holdingLocks);
    var t1 := ReleaseBookkeeping(t, l, locks);
    assert order == [l] + order[1..];
    RemoveLockDrops(t.holdingLocks, l);
    assert multiset(t1.holdingLocks) == multiset(order[1..]);
    var hl := RemoveLock(t.holdingLocks, l);
    assert t1 == Restore(t.(holdingLocks := hl), locks);
    RestoreCases(t.(holdingLocks := hl), locks);
    if order[1..] == [] {
      assert t1.holdingLocks == [];
    } else {
      assert t1.holdingLocks != [];
      assert t1.initPriority == t.initPriority;
      assert t.initPriority == NoDonation ==> t1.priority == t.priority;
      ReleasingAllRestoresBase(t1, order[1..], locks);
    }
  }

  /**
   * A held lock that never saw a contended acquire keeps max_val at the
   * sentinel, and priority_back then sets the priority to -1: below the
   * priority the thread had before the donation.
   */
  lemma RestoreCanFallBelowBase()
    ensures var locks := map[0 := Lock(None, 0, NoDonation)];
      var donated := Thread(40, 31, None, [0]);
      Restore(donated, locks).priority == -1 < donated.initPriority
  {
  }
}
