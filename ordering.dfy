/**
 * The orderings used to pick which waiter wakes: threads by priority
 * (compare_priority_func, used by sema_up) and condition-variable waiters by
 * the priority of the thread blocked on their private semaphore
 * (compare_sema_func, used by cond_wait and cond_signal), together with the
 * list operations that use them (list_sort, list_insert_ordered).
 */
module Ordering {
  import opened SynchTypes

  /**
   * A sort key. Pri(p) ranks an entry by priority p; Bottom ranks an entry
   * after every Pri entry (a semaphore with no waiters, for compare_sema_func).
   */
  datatype Rank = Bottom | Pri(p: int)

  /** "a goes strictly before b": both comparators answer true exactly when this holds. */
  predicate Above(a: Rank, b: Rank) {
    a.Pri? && (b.Bottom? || a.p > b.p)
  }

  /** No element is strictly above an element that comes before it. */
  ghost predicate SortedBy<T>(s: seq<T>, rank: T -> Rank) {
    forall i, j | 0 <= i < j < |s| :: !Above(rank(s[j]), rank(s[i]))
  }

  /**
   * k is the index of the first element that no element is strictly above:
   * the highest-ranked element, and the earliest of those that tie.
   */
  ghost predicate IsFirstHighest<T>(s: seq<T>, k: int, rank: T -> Rank) {
    && 0 <= k < |s|
    && (forall j | 0 <= j < |s| :: !Above(rank(s[j]), rank(s[k])))
    && (forall j | 0 <= j < k :: Above(rank(s[k]), rank(s[j])))
  }

  /** The index of the earliest highest-ranked element of a non-empty sequence. */
  function FirstHighest<T>(s: seq<T>, rank: T -> Rank): (k: nat)
    requires s != []
    ensures IsFirstHighest(s, k, rank)
  {
    if |s| == 1 then 0
    else
      var k := FirstHighest(s[..|s| - 1], rank);
      if Above(rank(s[|s| - 1]), rank(s[k])) then |s| - 1 else k
  }

  /**
   * list_insert_ordered: x is placed before the first element it goes
   * strictly before, or at the back when there is none.
   */
  function InsertOrdered<T>(s: seq<T>, x: T, rank: T -> Rank): (r: seq<T>)
    ensures |r| == |s| + 1
  {
    if s == [] then [x]
    else if Above(rank(x), rank(s[0])) then [x] + s
    else [s[0]] + InsertOrdered(s[1..], x, rank)
  }

  /** InsertOrdered adds x and nothing else: a permutation of s with x. */
  lemma {:induction false} InsertOrderedPermutes<T>(s: seq<T>, x: T, rank: T -> Rank)
    ensures multiset(InsertOrdered(s, x, rank)) == multiset(s) + multiset{x}
  {
    if s != [] && !Above(rank(x), rank(s[0])) {
      InsertOrderedPermutes(s[1..], x, rank);
      assert s == [s[0]] + s[1..];
    }
  }

  /** Every element of InsertOrdered(s, x) is x or an element of s. */
  lemma {:induction false} InsertOrderedElements<T>(s: seq<T>, x: T, rank: T -> Rank, k: nat)
    requires k < |s| + 1
    ensures InsertOrdered(s, x, rank)[k] == x || InsertOrdered(s, x, rank)[k] in s
  {
    var r := InsertOrdered(s, x, rank);
    InsertOrderedPermutes(s, x, rank);
    assert r[k] in multiset(r);
  }

  /** Inserting into a sorted sequence keeps it sorted. */
  lemma {:induction false} InsertOrderedSorted<T>(s: seq<T>, x: T, rank: T -> Rank)
    requires SortedBy(s, rank)
    ensures SortedBy(InsertOrdered(s, x, rank), rank)
  {
    if s != [] {
      if Above(rank(x), rank(s[0])) {
        InsertAtFrontSorted(s, x, rank);
      } else {
        InsertOrderedSorted(s[1..], x, rank);
        InsertBehindSorted(s, x, rank);
      }
    }
  }

  /** x goes strictly before the head of a sorted s: x followed by s is sorted. */
  lemma InsertAtFrontSorted<T>(s: seq<T>, x: T, rank: T -> Rank)
    requires SortedBy(s, rank) && s != [] && Above(rank(x), rank(s[0]))
    ensures SortedBy([x] + s, rank)
  {
    var r := [x] + s;
    forall i, j | 0 <= i < j < |r| ensures !Above(rank(r[j]), rank(r[i])) {
      if i > 0 {
        assert r[i] == s[i - 1] && r[j] == s[j - 1];
      } else {
        assert r[j] == s[j - 1];
        assert j - 1 == 0 || !Above(rank(s[j - 1]), rank(s[0]));
      }
    }
  }

  /** The head of a sorted s, followed by x inserted in order into the rest, is sorted. */
  lemma InsertBehindSorted<T>(s: seq<T>, x: T, rank: T -> Rank)
    requires SortedBy(s, rank) && s != [] && !Above(rank(x), rank(s[0]))
    requires SortedBy(InsertOrdered(s[1..], x, rank), rank)
    ensures SortedBy([s[0]] + InsertOrdered(s[1..], x, rank), rank)
  {
    var t := InsertOrdered(s[1..], x, rank);
    var r := [s[0]] + t;
    forall i, j | 0 <= i < j < |r| ensures !Above(rank(r[j]), rank(r[i])) {
      if i > 0 {
        assert r[i] == t[i - 1] && r[j] == t[j - 1];
      } else {
        assert r[j] == t[j - 1];
        InsertOrderedElements(s[1..], x, rank, j - 1);
        if t[j - 1] != x {
          var m :| 0 <= m < |s[1..]| && s[1..][m] == t[j - 1];
          assert s[m + 1] == t[j - 1];
        }
      }
    }
  }

  /**
   * list_sort as a stable sort: each element in turn is inserted behind the
   * elements it does not go strictly before, so ties keep their list order.
   */
  function SortBy<T>(s: seq<T>, rank: T -> Rank): (r: seq<T>)
    ensures |r| == |s|
  {
    if s == [] then []
    else InsertOrdered(SortBy(s[..|s| - 1], rank), s[|s| - 1], rank)
  }

  /** SortBy only reorders: its result is a permutation of s. */
  lemma {:induction false} SortByPermutes<T>(s: seq<T>, rank: T -> Rank)
    ensures multiset(SortBy(s, rank)) == multiset(s)
  {
    if s != [] {
      SortByPermutes(s[..|s| - 1], rank);
      InsertOrderedPermutes(SortBy(s[..|s| - 1], rank), s[|s| - 1], rank);
      assert s == s[..|s| - 1] + [s[|s| - 1]];
    }
  }

  /** The result of SortBy is sorted. */
  lemma {:induction false} SortBySorted<T>(s: seq<T>, rank: T -> Rank)
    ensures SortedBy(SortBy(s, rank), rank)
  {
    if s != [] {
      SortBySorted(s[..|s| - 1], rank);
      InsertOrderedSorted(SortBy(s[..|s| - 1], rank), s[|s| - 1], rank);
    }
  }

  /** The front of the sorted sequence is the earliest highest-ranked element. */
  lemma {:induction false} SortByHead<T>(s: seq<T>, rank: T -> Rank)
    requires s != []
    ensures SortBy(s, rank)[0] == s[FirstHighest(s, rank)]
  {
    if |s| > 1 {
      var p := s[..|s| - 1];
      SortByHead(p, rank);
      assert SortBy(p, rank)[0] == s[FirstHighest(p, rank)];
    }
  }

  /** The key compare_priority_func sorts threads by: their current priority. */
  function PriorityRank(threads: map<ThreadId, Thread>): ThreadId -> Rank {
    t => if t in threads then Pri(threads[t].priority) else Bottom
  }

  /** The key compare_sema_func sorts a semaphore by: the priority of its front waiter. */
  function SemaKey(s: Semaphore, threads: map<ThreadId, Thread>): Rank {
    if s.waiters == [] then Bottom else PriorityRank(threads)(s.waiters[0])
  }

  /** SemaKey for the semaphore in slot w of the semaphore table. */
  function WaiterRank(semas: map<SemaId, Semaphore>, threads: map<ThreadId, Thread>): SemaId -> Rank {
    w => if w in semas then SemaKey(semas[w], threads) else Bottom
  }

  /**
   * compare_sema_func: false when a has no waiters, true when only b has
   * none, otherwise whether a's front waiter has a strictly higher priority
   * than b's. It is exactly the strict order Above on SemaKey.
   */
  function CompareSema(a: Semaphore, b: Semaphore, threads: map<ThreadId, Thread>): (r: bool)
    requires a.waiters != [] ==> a.waiters[0] in threads
    requires b.waiters != [] ==> b.waiters[0] in threads
    ensures r <==> Above(SemaKey(a, threads), SemaKey(b, threads))
  {
    if |a.waiters| <= 0 then false
    else if |b.waiters| <= 0 then true
    else threads[a.waiters[0]].priority > threads[b.waiters[0]].priority
  }

  /**
   * An entry whose semaphore has no waiter yet is placed at the back by
   * list_insert_ordered with compare_sema_func.
   */
  lemma {:induction false} InsertWithoutWaiterAppends<T>(s: seq<T>, x: T, rank: T -> Rank)
    requires rank(x) == Bottom
    ensures InsertOrdered(s, x, rank) == s + [x]
  {
    if s != [] {
      InsertWithoutWaiterAppends(s[1..], x, rank);
      assert s == [s[0]] + s[1..];
    }
  }
}
