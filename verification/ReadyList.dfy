/**
 The ready queue of the thread library: a list threaded through the `next_ready` fields of the thread
 table, with a head and a tail id (threads/thread.c).
 */
module ReadyLists {
  import opened Sequences

  const THREAD_MAX_THREADS := 1024

  const THREAD_ANY := -1
  const THREAD_SELF := -2
  const THREAD_INVALID := -3
  const THREAD_NONE := -4
  const THREAD_NOMORE := -5
  const THREAD_NOMEMORY := -6

  predicate IsTid(t: int)
  {
    0 <= t < THREAD_MAX_THREADS
  }

  type Links = n: seq<int> | |n| == THREAD_MAX_THREADS witness seq(THREAD_MAX_THREADS, _ => 0)

  /** The links spell `q` from head to tail and end in -1; threads outside the list have no successor. */
  ghost predicate IsList(next: Links, head: int, tail: int, q: seq<int>)
  {
    && Distinct(q, THREAD_MAX_THREADS)
    && head == (if q == [] then -1 else q[0])
    && tail == (if q == [] then -1 else q[|q| - 1])
    && (forall i | 0 <= i < |q| - 1 :: next[q[i]] == q[i + 1])
    && (q != [] ==> next[tail] == -1)
    && (forall t | IsTid(t) && t !in q :: next[t] == -1)
  }

  lemma TailsDistinct(q: seq<int>, t: int)
    requires Distinct(q, THREAD_MAX_THREADS) && IsTid(t) && t !in q
    ensures Distinct(q + [t], THREAD_MAX_THREADS)
  {
  }

  /** Head and tail are equal exactly when there is at most one thread. */
  lemma HeadIsTail(next: Links, head: int, tail: int, q: seq<int>)
    requires IsList(next, head, tail, q)
    ensures head == tail <==> |q| <= 1
    ensures head == -1 <==> q == []
  {
  }

  lemma ListIsDistinct(next: Links, head: int, tail: int, q: seq<int>)
    requires IsList(next, head, tail, q)
    ensures Distinct(q, THREAD_MAX_THREADS)
  {
  }

  lemma EmptyList(next: Links)
    requires forall t | IsTid(t) :: next[t] == -1
    ensures IsList(next, -1, -1, [])
  {
  }

  // ---- adding at the end

  /** `next[tail] = t; tail = t`, or the first thread. */
  lemma Appended(next: Links, head: int, tail: int, q: seq<int>, t: int)
    requires IsList(next, head, tail, q) && IsTid(t) && t !in q
    ensures q == [] ==> IsList(next, t, t, [t])
    ensures q != [] ==> IsList(next[tail := t], head, t, q + [t])
  {
    if q != [] {
      TailsDistinct(q, t);
      var n, r := next[tail := t], q + [t];
      forall i | 0 <= i < |r| - 1 ensures n[r[i]] == r[i + 1] {
        if i < |q| - 1 { assert q[i] != q[|q| - 1]; }
      }
    }
  }

  // ---- taking the first

  lemma FirstIsWithout(q: seq<int>)
    requires q != []
    ensures q[1..] == Without(q, 0)
  {
  }

  /** `head = next[head]; next[first] = -1`, or the last thread. */
  lemma TookFirst(next: Links, head: int, tail: int, q: seq<int>)
    requires IsList(next, head, tail, q) && q != []
    ensures |q| == 1 ==> IsList(next[head := -1], -1, -1, q[1..])
    ensures |q| > 1 ==> IsList(next[head := -1], next[head], tail, q[1..])
  {
    hide Without;
    var r := q[1..];
    FirstIsWithout(q);
    WithoutDistinct(q, THREAD_MAX_THREADS, 0);
    forall i | 0 <= i < |r| - 1 ensures next[head := -1][r[i]] == r[i + 1] {
      assert r[i] == q[i + 1] && r[i + 1] == q[i + 2];
    }
  }

  // ---- unlinking

  /** The thread before position `i`, as the walk leaves it: the thread itself at the head. */
  ghost function Before(q: seq<int>, i: nat): int
    requires i < |q|
  {
    if i == 0 then q[0] else q[i - 1]
  }

  /** Cutting out position `i` of a list of at least two, as the clean-up after the walk does. */
  lemma Unlinked(next: Links, head: int, tail: int, q: seq<int>, i: nat)
    requires IsList(next, head, tail, q) && i < |q| && |q| > 1
    ensures var t := q[i];
            IsList(next[Before(q, i) := next[t]][t := -1],
                   if t == head then next[t] else head,
                   if t == tail then Before(q, i) else tail,
                   Without(q, i))
  {
    hide Distinct;
    Apart(q);
    var t, r := q[i], Without(q, i);
    var n := next[Before(q, i) := next[t]][t := -1];
    WithoutDistinct(q, THREAD_MAX_THREADS, i);
    forall k | 0 <= k < |r| - 1 ensures n[r[k]] == r[k + 1] {
      if k < i - 1 {
        assert r[k] == q[k] && r[k + 1] == q[k + 1];
      } else if k == i - 1 {
        assert r[k] == q[i - 1] && r[k + 1] == q[i + 1];
      } else {
        assert r[k] == q[k + 1] && r[k + 1] == q[k + 2];
      }
    }
  }

  lemma Apart(q: seq<int>)
    requires Distinct(q, THREAD_MAX_THREADS)
    ensures forall i, j | 0 <= i < |q| && 0 <= j < |q| :: q[i] == q[j] <==> i == j
    ensures forall i | 0 <= i < |q| :: IsTid(q[i])
  {
  }

  /** The links after thread `q[i]` has given its place at the front of the CPU, and `caller` waits at the end. */
  ghost function Rotated(next: Links, q: seq<int>, i: nat, caller: int): Links
    requires Distinct(q, THREAD_MAX_THREADS) && i < |q| && |q| > 1 && IsTid(caller)
  {
    var n := next[Before(q, i) := next[q[i]]];
    var m := n[(if i == |q| - 1 then Before(q, i) else q[|q| - 1]) := caller];
    m[q[i] := -1][caller := -1]
  }

  /** Both ways the code has of moving the caller to the end: the chosen thread last, or not last. */
  lemma RotatedList(next: Links, head: int, tail: int, q: seq<int>, i: nat, caller: int)
    requires IsList(next, head, tail, q) && i < |q| && |q| > 1 && IsTid(caller) && caller !in q
    ensures IsList(Rotated(next, q, i, caller), if i == 0 then next[head] else head, caller, Without(q, i) + [caller])
  {
    var t := q[i];
    Unlinked(next, head, tail, q, i);
    WithoutDistinct(q, THREAD_MAX_THREADS, i);
    var n := next[Before(q, i) := next[t]][t := -1];
    var tail2 := if t == tail then Before(q, i) else tail;
    Appended(n, if t == head then next[t] else head, tail2, Without(q, i), caller);
    assert tail2 != t && tail2 in Without(q, i);
    assert Rotated(next, q, i, caller) == n[tail2 := caller];
    assert t == head <==> i == 0;
  }

  // ---- cleaning up after exits

  ghost function Cleared(next: Links, ids: set<int>): Links
  {
    seq(THREAD_MAX_THREADS, t requires 0 <= t < THREAD_MAX_THREADS => if t in ids then -1 else next[t])
  }

  /** Cutting the links of some threads keeps the list exactly when none of them has a successor in it. */
  lemma ClearedIff(next: Links, head: int, tail: int, q: seq<int>, ids: set<int>)
    requires IsList(next, head, tail, q)
    ensures IsList(Cleared(next, ids), head, tail, q) <==> forall i | 0 <= i < |q| - 1 :: q[i] !in ids
  {
    if IsList(Cleared(next, ids), head, tail, q) {
      forall i | 0 <= i < |q| - 1 ensures q[i] !in ids {
        assert Cleared(next, ids)[q[i]] == q[i + 1];
      }
    }
  }

  /** Cutting the link of thread 0 does no harm: it has no successor. */
  ghost predicate ZeroHarmless(q: seq<int>)
  {
    forall i | 0 <= i < |q| - 1 :: q[i] != 0
  }

  /** The threads up to thread 0, or all of them. */
  ghost function UpToZero(q: seq<int>): (r: seq<int>)
    ensures r <= q && ZeroHarmless(r) && (r == q <==> ZeroHarmless(q))
    ensures r != q ==> r != [] && r[|r| - 1] == 0
  {
    if q == [] || q[0] == 0 then q[..if q == [] then 0 else 1]
    else
      var r := UpToZero(q[1..]);
      assert forall i | 0 <= i < |q| - 2 :: q[1..][i] == q[i + 1];
      [q[0]] + r
  }

  /** The links lead from `head` along `q` and end there; outside of `q` just the threads in `loose` have a successor. */
  ghost predicate LeadsAlong(next: Links, head: int, q: seq<int>, loose: set<int>)
  {
    && Distinct(q, THREAD_MAX_THREADS)
    && head == (if q == [] then -1 else q[0])
    && (forall i | 0 <= i < |q| - 1 :: next[q[i]] == q[i + 1])
    && (q != [] ==> next[q[|q| - 1]] == -1)
    && (forall t | IsTid(t) && t !in q :: next[t] != -1 <==> t in loose)
  }

  /** A list is where the links lead, up to the tail, when no thread outside has a successor. */
  lemma ListIff(next: Links, head: int, tail: int, q: seq<int>)
    ensures IsList(next, head, tail, q) <==>
            LeadsAlong(next, head, q, {}) && tail == if q == [] then -1 else q[|q| - 1]
  {
  }

  /** The threads that are cut off with a successor, when `r` is left of `q`. */
  ghost function CutOff(q: seq<int>, r: seq<int>): set<int>
  {
    set t | t in q && t !in r && t != q[|q| - 1]
  }

  /** Once the link of thread 0 is cut the list leads just up to it, and is a list exactly if that is all of it. */
  lemma CutAtZero(next: Links, head: int, tail: int, q: seq<int>, ids: set<int>)
    requires IsList(next, head, tail, q) && 0 in ids && forall t | t in ids && t in q :: t == 0
    ensures LeadsAlong(Cleared(next, ids), head, UpToZero(q), CutOff(q, UpToZero(q)))
    ensures IsList(Cleared(next, ids), head, tail, UpToZero(q)) <==> ZeroHarmless(q)
  {
    hide UpToZero, Cleared;
    var r := UpToZero(q);
    ClearedIff(next, head, tail, q, ids);
    CutLeads(next, head, tail, q, ids, r);
    if !ZeroHarmless(q) {
      TailBehind(next, head, tail, q, r);
    }
  }

  /** The clean-up after a thread has exited that is in the list no more; `settled` says whether thread 0 is spared. */
  lemma AfterExit(next: Links, head: int, tail: int, q: seq<int>, caller: int, settled: bool)
    requires IsList(next, head, tail, q) && caller !in q
    ensures var ids, r := if settled then {caller} else {caller, 0}, if settled then q else UpToZero(q);
            && LeadsAlong(Cleared(next, ids), head, r, CutOff(q, r))
            && (IsList(Cleared(next, ids), head, tail, r) <==> settled || ZeroHarmless(q))
  {
    hide UpToZero, ZeroHarmless, Cleared;
    if settled {
      ClearedIff(next, head, tail, q, {caller});
      ListIff(Cleared(next, {caller}), head, tail, q);
      assert CutOff(q, q) == {};
    } else {
      CutAtZero(next, head, tail, q, {caller, 0});
    }
  }

  lemma CutLeads(next: Links, head: int, tail: int, q: seq<int>, ids: set<int>, r: seq<int>)
    requires IsList(next, head, tail, q) && 0 in ids && (forall t | t in ids && t in q :: t == 0)
    requires r <= q && ZeroHarmless(r) && (r != q ==> r != [] && r[|r| - 1] == 0)
    ensures LeadsAlong(Cleared(next, ids), head, r, CutOff(q, r))
  {
    hide Distinct;
    Apart(q);
    PrefixDistinct(q, r);
    assert forall i | 0 <= i < |r| :: r[i] == q[i];
    forall t | IsTid(t) && t !in r ensures Cleared(next, ids)[t] != -1 <==> t in CutOff(q, r) {
      if t in q {
        var i :| 0 <= i < |q| && q[i] == t;
        if i < |q| - 1 { assert next[t] == q[i + 1]; }
      }
    }
  }

  lemma PrefixDistinct(q: seq<int>, r: seq<int>)
    requires Distinct(q, THREAD_MAX_THREADS) && r <= q
    ensures Distinct(r, THREAD_MAX_THREADS)
  {
    assert forall i | 0 <= i < |r| :: r[i] == q[i];
  }

  lemma TailBehind(next: Links, head: int, tail: int, q: seq<int>, r: seq<int>)
    requires IsList(next, head, tail, q) && r < q && r != []
    ensures tail != r[|r| - 1]
  {
  }

  // ---- wait queues

  /** The wait queue links spell `q` from head to tail; what the tail links to does not matter. */
  ghost predicate IsWaitList(next: Links, head: int, tail: int, q: seq<int>)
  {
    && Distinct(q, THREAD_MAX_THREADS)
    && head == (if q == [] then -1 else q[0])
    && tail == (if q == [] then -1 else q[|q| - 1])
    && (forall i | 0 <= i < |q| - 1 :: next[q[i]] == q[i + 1])
  }

  lemma WaitAppended(next: Links, head: int, tail: int, q: seq<int>, t: int)
    requires IsWaitList(next, head, tail, q) && IsTid(t) && t !in q
    ensures q == [] ==> IsWaitList(next, t, t, [t])
    ensures q != [] ==> IsTid(tail) && IsWaitList(next[tail := t], head, t, q + [t])
  {
    if q != [] {
      var n, r := next[tail := t], q + [t];
      forall i | 0 <= i < |r| - 1 ensures n[r[i]] == r[i + 1] {
        if i < |q| - 1 { assert q[i] != q[|q| - 1]; }
      }
    }
  }

  /** Taking the first waiter without touching the tail leaves a queue of the others exactly when there are others. */
  lemma WaitTookFirstIff(next: Links, head: int, tail: int, q: seq<int>)
    requires IsWaitList(next, head, tail, q) && q != []
    ensures IsTid(head) && (IsWaitList(next, next[head], tail, q[1..]) <==> |q| > 1)
    ensures head != tail <==> |q| > 1
  {
    if |q| > 1 {
      assert forall i | 0 <= i < |q| - 1 :: q[1..][i] == q[i + 1];
    }
  }

  lemma WaitIsDistinct(next: Links, head: int, tail: int, q: seq<int>)
    requires IsWaitList(next, head, tail, q)
    ensures Distinct(q, THREAD_MAX_THREADS)
  {
  }

  lemma WaitHead(next: Links, head: int, tail: int, q: seq<int>)
    requires IsWaitList(next, head, tail, q) && q != []
    ensures head == q[0]
  {
  }

  lemma WaitEmpty(next: Links)
    ensures IsWaitList(next, -1, -1, [])
  {
  }
}
