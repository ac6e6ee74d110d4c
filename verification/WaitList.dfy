/**
 A wait queue as the code reads it (threads/thread.c): head, tail and links, which need not be those of the threads
 that wait in it; and the end of the ready queue, where a thread is put that may be ready already.
 */
module WaitLists {
  import opened Sequences
  import opened ReadyLists

  /** struct wait_queue */
  datatype Queue = Queue(head: int, tail: int, links: Links)

  /** What the code takes for an empty queue. */
  predicate Idle(q: Queue)
  {
    q.head == -1 && q.tail == -1
  }

  /** The queue leads along the threads `w`, and they are all. */
  ghost predicate Spells(q: Queue, w: seq<int>)
  {
    IsWaitList(q.links, q.head, q.tail, w)
  }

  lemma SpellsNone(q: Queue)
    ensures Spells(q, []) <==> Idle(q)
  {
  }

  lemma SpellsSome(q: Queue, w: seq<int>)
    requires Spells(q, w) && w != []
    ensures !Idle(q) && q.head == w[0]
  {
  }

  // ---- a thread goes to sleep

  /** The end of the queue is a thread, or there is none: nothing outside the links is written. */
  predicate CanEnqueue(q: Queue)
  {
    Idle(q) || IsTid(q.tail)
  }

  function Enqueued(q: Queue, t: int): Queue
    requires CanEnqueue(q)
  {
    if Idle(q) then Queue(t, t, q.links) else Queue(q.head, t, q.links[q.tail := t])
  }

  /** A queue that leads along its waiters still does with one more; one that nobody waits in, exactly if it leads to him. */
  lemma EnqueuedIff(q: Queue, w: seq<int>, t: int)
    requires CanEnqueue(q) && IsTid(t) && t !in w && (w != [] ==> Spells(q, w))
    ensures Spells(Enqueued(q, t), w + [t]) <==> Spells(q, w) || q.head == t
  {
    if Spells(q, w) {
      WaitAppended(q.links, q.head, q.tail, w, t);
    }
  }

  // ---- threads are woken

  /** The threads that a wake-up takes from the queue, in its order: the first, or those up to the tail. */
  ghost predicate Chain(q: Queue, all: int, c: seq<int>)
  {
    && c != [] && c[0] == q.head
    && (forall i | 0 <= i < |c| :: IsTid(c[i]))
    && (forall i | 0 <= i < |c| - 1 :: c[i + 1] == q.links[c[i]])
    && if all == 0 then |c| == 1 else c[|c| - 1] == q.tail && forall i | 0 <= i < |c| - 1 :: c[i] != q.tail
  }

  lemma {:induction false} ChainAt(q: Queue, all: int, c: seq<int>, d: seq<int>, i: nat)
    requires Chain(q, all, c) && Chain(q, all, d) && i < |c| && i < |d|
    ensures c[i] == d[i]
    decreases i
  {
    if i > 0 {
      ChainAt(q, all, c, d, i - 1);
      assert c[i - 1 + 1] == q.links[c[i - 1]] && d[i - 1 + 1] == q.links[d[i - 1]];
    }
  }

  lemma ChainLength(q: Queue, all: int, c: seq<int>, d: seq<int>)
    requires Chain(q, all, c) && Chain(q, all, d)
    ensures |c| <= |d|
  {
    if |d| < |c| {
      ChainAt(q, all, c, d, |d| - 1);
    }
  }

  /** There is no more than one such sequence. */
  lemma ChainUnique(q: Queue, all: int, c: seq<int>, d: seq<int>)
    requires Chain(q, all, c) && Chain(q, all, d)
    ensures c == d
  {
    ChainLength(q, all, c, d);
    ChainLength(q, all, d, c);
    forall i | 0 <= i < |c| ensures c[i] == d[i] {
      ChainAt(q, all, c, d, i);
    }
  }

  lemma {:induction false} ChainTogether(q: Queue, all: int, c: seq<int>, i: nat, j: nat, n: nat)
    requires Chain(q, all, c) && i + n < |c| && j + n < |c| && c[i] == c[j]
    ensures c[i + n] == c[j + n]
    decreases n
  {
    if n > 0 {
      ChainTogether(q, all, c, i, j, n - 1);
      assert c[i + n] == q.links[c[i + n - 1]] && c[j + n] == q.links[c[j + n - 1]];
    }
  }

  /** No thread is in it twice: the tail would be met earlier. */
  lemma ChainDistinct(q: Queue, all: int, c: seq<int>)
    requires Chain(q, all, c)
    ensures Distinct(c, THREAD_MAX_THREADS)
  {
    forall i, j | 0 <= i < j < |c| ensures c[i] != c[j] {
      if c[i] == c[j] {
        ChainTogether(q, all, c, i, j, |c| - 1 - j);
      }
    }
  }

  /** Of a queue that leads along its waiters the waiters are woken. */
  lemma WaitersChain(q: Queue, w: seq<int>, all: int)
    requires Spells(q, w) && w != []
    ensures Chain(q, all, if all == 0 then w[..1] else w)
  {
    assert forall i | 0 <= i < |w| - 1 :: w[i + 1] == q.links[w[i]];
  }

  /** The queue after a wake-up: the head has moved on and the tail has not (line 750), or both are reset. */
  function Taken(q: Queue, all: int): Queue
    requires all == 0 ==> IsTid(q.head)
  {
    if all == 0 then q.(head := q.links[q.head]) else q.(head := -1, tail := -1)
  }

  /** The waiters after a wake-up. */
  function Left(w: seq<int>, all: int): seq<int>
  {
    if all == 0 && w != [] then w[1..] else []
  }

  /** Only when the last waiter was woken singly does the queue lead elsewhere afterwards. */
  lemma TakenIff(q: Queue, w: seq<int>, all: int)
    requires Spells(q, w) && w != []
    ensures all == 0 ==> IsTid(q.head)
    ensures Spells(Taken(q, all), Left(w, all)) <==> !(all == 0 && |w| == 1)
    ensures Left(w, all) != [] ==> Spells(Taken(q, all), Left(w, all))
  {
    WaitTookFirstIff(q.links, q.head, q.tail, w);
  }

  /**
   A thread that waits alone, is woken singly, and waits again: the queue is in order exactly if its link leads to the
   thread itself, and then it is as it was, so that this can be repeated for good.
   */
  lemma AloneAgainIff(links: Links, x: int)
    requires IsTid(x)
    ensures var q := Queue(x, x, links);
            var again := Enqueued(Taken(q, 0), x);
            && Spells(q, [x]) && (Spells(again, [x]) <==> links[x] == x) && (links[x] == x ==> again == q)
  {
    assert links[x] == x ==> links[x := x] == links;
  }

  // ---- the end of the ready queue

  ghost function IndexOf(q: seq<int>, t: int): (i: nat)
    requires t in q
    ensures i < |q| && q[i] == t
  {
    var i :| 0 <= i < |q| && q[i] == t;
    i
  }

  /** `next[tail] = t; next[t] = -1; tail = t`: a thread that is in the queue becomes its end. */
  ghost function Rewake(q: seq<int>, t: int): seq<int>
  {
    if t in q then q[..IndexOf(q, t) + 1] else q + [t]
  }

  /** One after the other. */
  ghost function Rewoken(q: seq<int>, c: seq<int>): seq<int>
  {
    if c == [] then q else Rewake(Rewoken(q, c[..|c| - 1]), c[|c| - 1])
  }

  lemma RewokenNext(q: seq<int>, c: seq<int>, n: nat)
    requires n < |c|
    ensures Rewoken(q, c[..n + 1]) == Rewake(Rewoken(q, c[..n]), c[n])
  {
    assert c[..n + 1][..n] == c[..n];
  }

  /** The threads that were in the queue, or put at its end, and are in it no more. */
  ghost function Dropped(loose: set<int>, q: seq<int>, c: seq<int>, r: seq<int>): set<int>
  {
    set t | t in loose + (set x | x in q) + (set x | x in c) && t !in r
  }

  lemma DroppedNext(loose: set<int>, q: seq<int>, c: seq<int>, n: nat, r: seq<int>, r2: seq<int>)
    requires n < |c| && forall x | x in r :: x in q || x in c[..n]
    ensures Dropped(Dropped(loose, q, c[..n], r), r, [c[n]], r2) == Dropped(loose, q, c[..n + 1], r2)
  {
    var before := Dropped(loose, q, c[..n], r);
    forall x ensures x in Dropped(before, r, [c[n]], r2) <==> x in Dropped(loose, q, c[..n + 1], r2) {
      assert x in c[..n + 1] <==> x in c[..n] || x == c[n];
      assert x in before <==> (x in loose || x in q || x in c[..n]) && x !in r;
    }
  }

  /** Threads that are not ready go to the end of the queue, and nobody is dropped. */
  lemma WokenAtEnd(q: seq<int>, c: seq<int>)
    requires Distinct(c, THREAD_MAX_THREADS) && forall t | t in c :: t !in q
    ensures Rewoken(q, c) == q + c && Dropped({}, q, c, Rewoken(q, c)) == {}
  {
    RewokenNew(q, c);
  }

  lemma RewakeMembers(q: seq<int>, t: int)
    requires Distinct(q, THREAD_MAX_THREADS) && IsTid(t)
    ensures Distinct(Rewake(q, t), THREAD_MAX_THREADS)
    ensures t in Rewake(q, t) && forall x | x in Rewake(q, t) :: x in q || x == t
  {
    if t in q {
      var r := Rewake(q, t);
      PrefixDistinct(q, r);
      assert forall i | 0 <= i < |r| :: r[i] == q[i];
      assert r[IndexOf(q, t)] == t;
    } else {
      TailsDistinct(q, t);
    }
  }

  lemma {:induction false} RewokenMembers(q: seq<int>, c: seq<int>)
    requires Distinct(q, THREAD_MAX_THREADS) && forall i | 0 <= i < |c| :: IsTid(c[i])
    ensures Distinct(Rewoken(q, c), THREAD_MAX_THREADS)
    ensures forall x | x in Rewoken(q, c) :: x in q || x in c
    decreases |c|
  {
    if c != [] {
      var d := c[..|c| - 1];
      RewokenMembers(q, d);
      RewakeMembers(Rewoken(q, d), c[|c| - 1]);
      assert forall x :: x in c <==> x in d || x == c[|c| - 1];
    }
  }

  /** `q[m]` is the frontmost thread of `q` that is woken again, as the thread at position `j`. */
  ghost predicate FrontMost(q: seq<int>, c: seq<int>, m: nat, j: nat)
  {
    m < |q| && j < |c| && c[j] == q[m] && forall a | 0 <= a < m :: q[a] !in c
  }

  ghost function FirstAgain(q: seq<int>, c: seq<int>): (m: nat)
    ensures m <= |q| && (m < |q| ==> q[m] in c)
    ensures forall a | 0 <= a < m :: q[a] !in c
  {
    if q == [] || q[0] in c then 0
    else
      var m := FirstAgain(q[1..], c);
      assert forall a | 0 < a < m + 1 :: q[a] == q[1..][a - 1];
      1 + m
  }

  lemma RewakeAt(r: seq<int>, m: nat)
    requires Distinct(r, THREAD_MAX_THREADS) && m < |r|
    ensures Rewake(r, r[m]) == r[..m + 1]
  {
    var t := r[m];
    assert t in r && r[IndexOf(r, t)] == t;
  }

  lemma {:induction false} RewokenNew(q: seq<int>, c: seq<int>)
    requires Distinct(c, THREAD_MAX_THREADS) && forall t | t in c :: t !in q
    ensures Rewoken(q, c) == q + c
    decreases |c|
  {
    if c != [] {
      var n := |c| - 1;
      assert c[n] in c;
      RewokenNew(q, c[..n]);
      assert q + c == q + c[..n] + [c[n]];
    }
  }

  /** What is in front of the frontmost thread woken again stays, and then come those woken after it. */
  lemma {:induction false} RewokenForm(q: seq<int>, c: seq<int>, m: nat, j: nat)
    requires Distinct(q, THREAD_MAX_THREADS) && Distinct(c, THREAD_MAX_THREADS) && FrontMost(q, c, m, j)
    ensures Rewoken(q, c) == q[..m + 1] + c[j + 1..]
    decreases |c|, 0
  {
    hide Rewake, Rewoken, Distinct;
    var n := |c| - 1;
    var d, t := c[..n], c[n];
    var r := Rewoken(q, d);
    assert c[..n + 1] == c;
    RewokenNext(q, c, n);
    PrefixDistinct(c, d);
    DistinctTids(d);
    RewokenMembers(q, d);
    if j < n {
      assert FrontMost(q, d, m, j);
      RewokenForm(q, d, m, j);
      assert c[j + 1..] == d[j + 1..] + [t];
      assert forall i | j < i < n :: d[i] == c[i];
      RewakeNew(q, c, m, j);
    } else {
      assert forall a | 0 <= a <= m :: q[a] !in d by { AgainEarlier(q, c, m); }
      RewokenPrefix(q, d, m);
      RewakeAt(r, m);
    }
  }

  lemma AgainEarlier(q: seq<int>, c: seq<int>, m: nat)
    requires c != [] && Distinct(c, THREAD_MAX_THREADS) && FrontMost(q, c, m, |c| - 1)
    ensures forall a | 0 <= a <= m :: q[a] !in c[..|c| - 1]
  {
  }

  lemma DistinctTids(c: seq<int>)
    requires Distinct(c, THREAD_MAX_THREADS)
    ensures forall i | 0 <= i < |c| :: IsTid(c[i])
  {
  }

  /** What no thread of `d` is in front of stays where it is. */
  lemma {:induction false} RewokenPrefix(q: seq<int>, d: seq<int>, m: nat)
    requires Distinct(q, THREAD_MAX_THREADS) && Distinct(d, THREAD_MAX_THREADS) && m < |q|
    requires forall a | 0 <= a <= m :: q[a] !in d
    ensures var r := Rewoken(q, d); m < |r| && r[m] == q[m] && r[..m + 1] == q[..m + 1]
    decreases |d|, 1
  {
    var k := FirstAgain(q, d);
    if k < |q| {
      RewokenForm(q, d, k, IndexOf(d, q[k]));
    } else {
      forall x | x in q ensures x !in d {
        assert q[IndexOf(q, x)] == x;
      }
      RewokenNew(q, d);
    }
  }

  lemma RewakeNew(q: seq<int>, c: seq<int>, m: nat, j: nat)
    requires Distinct(q, THREAD_MAX_THREADS) && Distinct(c, THREAD_MAX_THREADS) && FrontMost(q, c, m, j) && j < |c| - 1
    ensures var r, t := q[..m + 1] + c[..|c| - 1][j + 1..], c[|c| - 1]; Rewake(r, t) == r + [t]
  {
    var r, t := q[..m + 1] + c[..|c| - 1][j + 1..], c[|c| - 1];
    forall i | 0 <= i < |r| ensures r[i] != t {
      if i < m {
        assert r[i] == q[i] && q[i] !in c;
      } else if i == m {
        assert r[i] == q[m] == c[j];
      } else {
        assert r[i] == c[j + i - m];
      }
    }
  }

  /** The wake-up names just the last threads that are ready, the frontmost of them first. */
  ghost predicate TailAgain(q: seq<int>, c: seq<int>)
  {
    c != [] && exists m: nat :: m < |q| && TailFrom(q, c, m)
  }

  ghost predicate TailFrom(q: seq<int>, c: seq<int>, m: nat)
    requires m < |q| && c != []
  {
    c[0] == q[m] && forall t :: t in c <==> t in q[m..]
  }

  /** Of one thread: it is the last. */
  lemma LastAgain(q: seq<int>, t: int)
    requires Distinct(q, THREAD_MAX_THREADS)
    ensures TailAgain(q, [t]) <==> q != [] && q[|q| - 1] == t
  {
    if q != [] && q[|q| - 1] == t {
      assert q[|q| - 1..] == [t];
      assert TailFrom(q, [t], |q| - 1);
    }
    if m: nat :| m < |q| && TailFrom(q, [t], m) {
      var last := q[|q| - 1];
      assert q[m..][|q| - 1 - m] == last && last in q[m..];
      assert last in [t];
    }
  }

  /** Exactly then everybody who was ready still is, and nobody else. */
  lemma TailAgainIff(q: seq<int>, c: seq<int>)
    requires Distinct(q, THREAD_MAX_THREADS) && Distinct(c, THREAD_MAX_THREADS) && c != []
    ensures TailAgain(q, c) <==> (forall t | t in c :: t in q) && forall t | t in q :: t in Rewoken(q, c)
    ensures TailAgain(q, c) ==> forall t :: t in Rewoken(q, c) <==> t in q
  {
    if m: nat :| c != [] && m < |q| && TailFrom(q, c, m) {
      TailKept(q, c, m);
    }
    if (forall t | t in c :: t in q) && forall t | t in q :: t in Rewoken(q, c) {
      KeptIsTail(q, c);
    }
  }

  lemma TailKept(q: seq<int>, c: seq<int>, m: nat)
    requires Distinct(q, THREAD_MAX_THREADS) && Distinct(c, THREAD_MAX_THREADS) && c != []
    requires m < |q| && TailFrom(q, c, m)
    ensures forall t | t in c :: t in q
    ensures forall t :: t in Rewoken(q, c) <==> t in q
  {
    hide Rewoken;
    var u := q[m..];
    forall a | 0 <= a < m ensures q[a] !in c {
      assert forall i | 0 <= i < |u| :: u[i] == q[m + i] != q[a];
    }
    RewokenForm(q, c, m, 0);
    var r := q[..m + 1] + c[1..];
    forall t ensures t in r <==> t in q {
      SplitMembers(q, m, t);
      SplitMembers(c, 0, t);
      assert t in r <==> t in q[..m] || t == q[m] || t in c[1..];
    }
  }

  lemma SplitMembers(q: seq<int>, m: nat, t: int)
    requires m < |q|
    ensures q[..m + 1] == q[..m] + [q[m]] && q[m..] == [q[m]] + q[m + 1..]
    ensures t in q <==> t in q[..m] || t in q[m..]
  {
    assert q == q[..m] + q[m..];
  }

  lemma KeptIsTail(q: seq<int>, c: seq<int>)
    requires Distinct(q, THREAD_MAX_THREADS) && Distinct(c, THREAD_MAX_THREADS) && c != []
    requires (forall t | t in c :: t in q) && forall t | t in q :: t in Rewoken(q, c)
    ensures TailAgain(q, c)
  {
    hide Rewoken, TailFrom;
    AgainThere(q, c);
    var m := FirstAgain(q, c);
    var j := IndexOf(c, q[m]);
    RewokenForm(q, c, m, j);
    BehindAreLater(q, c, m, j);
    FirstIsFrontmost(q, c, m, j);
    assert TailFrom(q, c, m) by { IsTail(q, c, m); }
  }

  lemma AgainThere(q: seq<int>, c: seq<int>)
    requires c != [] && forall t | t in c :: t in q
    ensures FirstAgain(q, c) < |q|
  {
    assert c[0] in c && q[IndexOf(q, c[0])] == c[0];
  }

  /** Whoever is behind the frontmost one is woken after it. */
  lemma BehindAreLater(q: seq<int>, c: seq<int>, m: nat, j: nat)
    requires Distinct(q, THREAD_MAX_THREADS) && m < |q| && j < |c|
    requires forall t | t in q :: t in q[..m + 1] + c[j + 1..]
    ensures forall i | m < i < |q| :: q[i] in c[j + 1..]
  {
    forall i | m < i < |q| ensures q[i] in c[j + 1..] {
      assert q[i] in q;
      assert forall a | 0 <= a <= m :: q[..m + 1][a] == q[a] != q[i];
    }
  }

  lemma FirstIsFrontmost(q: seq<int>, c: seq<int>, m: nat, j: nat)
    requires Distinct(c, THREAD_MAX_THREADS) && FrontMost(q, c, m, j) && (forall t | t in c :: t in q)
    requires forall i | m < i < |q| :: q[i] in c[j + 1..]
    ensures j == 0
  {
    assert c[0] in c;
    var i := IndexOf(q, c[0]);
    assert i >= m;
    if j > 0 {
      Earlier(c, j);
    }
  }

  lemma Earlier(c: seq<int>, j: nat)
    requires Distinct(c, THREAD_MAX_THREADS) && 0 < j < |c|
    ensures c[0] !in c[j + 1..] && c[0] != c[j]
  {
    var d := c[j + 1..];
    forall i | 0 <= i < |d| ensures d[i] != c[0] {
      assert d[i] == c[j + 1 + i];
    }
  }

  lemma IsTail(q: seq<int>, c: seq<int>, m: nat)
    requires FrontMost(q, c, m, 0) && (forall t | t in c :: t in q) && forall i | m < i < |q| :: q[i] in c[1..]
    ensures TailFrom(q, c, m)
  {
    var u := q[m..];
    forall t ensures t in c <==> t in u {
      if t in c {
        assert u[IndexOf(q, t) - m] == t;
      }
      if t in u {
        var i :| 0 <= i < |u| && u[i] == t;
        assert q[m + i] == t;
      }
    }
  }

  /** The links that the code writes when it puts a thread at the end of the ready queue, ready or not. */
  lemma PutAtEnd(next: Links, head: int, tail: int, q: seq<int>, loose: set<int>, t: int)
    requires LeadsAlong(next, head, q, loose) && tail == (if q == [] then -1 else q[|q| - 1]) && IsTid(t)
    requires forall x | x in loose :: x !in q
    ensures Distinct(q, THREAD_MAX_THREADS) && Distinct(Rewake(q, t), THREAD_MAX_THREADS)
    ensures var r := Rewake(q, t);
            && r != [] && r[|r| - 1] == t
            && if q == [] then LeadsAlong(next[t := -1], t, r, Dropped(loose, q, [t], r))
               else IsTid(tail) && LeadsAlong(next[tail := t][t := -1], head, r, Dropped(loose, q, [t], r))
  {
    RewakeMembers(q, t);
    var r := Rewake(q, t);
    var n := if q == [] then next[t := -1] else next[tail := t][t := -1];
    if t in q {
      PutAgain(next, head, tail, q, loose, t);
    } else if q != [] {
      PutNew(next, head, tail, q, loose, t);
    }
  }

  lemma PutAgain(next: Links, head: int, tail: int, q: seq<int>, loose: set<int>, t: int)
    requires LeadsAlong(next, head, q, loose) && q != [] && tail == q[|q| - 1] && t in q
    ensures LeadsAlong(next[tail := t][t := -1], head, Rewake(q, t), Dropped(loose, q, [t], Rewake(q, t)))
  {
    hide Distinct, Dropped, Rewake;
    Apart(q);
    var k := IndexOf(q, t);
    var n, r := next[tail := t][t := -1], q[..k + 1];
    assert q[k] == t;
    RewakeAt(q, k);
    PrefixDistinct(q, r);
    assert r[k] == t && t in r;
    forall i | 0 <= i < |r| - 1 ensures n[r[i]] == r[i + 1] {
      assert r[i] == q[i] != t && q[i] != tail;
    }
    forall x | IsTid(x) && x !in r ensures n[x] != -1 <==> x in Dropped(loose, q, [t], r) {
      PutAgainOutside(next, head, q, loose, t, x, r);
    }
  }

  lemma PutAgainOutside(next: Links, head: int, q: seq<int>, loose: set<int>, t: int, x: int, r: seq<int>)
    requires LeadsAlong(next, head, q, loose) && q != [] && IsTid(x) && x !in r && t in r && IsTid(t) && IsTid(q[|q| - 1])
    ensures next[q[|q| - 1] := t][t := -1][x] != -1 <==> x in Dropped(loose, q, [t], r)
  {
    if x in q {
      SuccessorIn(next, head, q, loose, x);
    }
  }

  lemma SuccessorIn(next: Links, head: int, q: seq<int>, loose: set<int>, x: int)
    requires LeadsAlong(next, head, q, loose) && x in q
    ensures IsTid(x) && (x == q[|q| - 1] || next[x] != -1)
  {
    var i :| 0 <= i < |q| && q[i] == x;
    if i < |q| - 1 { assert next[x] == q[i + 1]; }
  }

  lemma PutNew(next: Links, head: int, tail: int, q: seq<int>, loose: set<int>, t: int)
    requires LeadsAlong(next, head, q, loose) && q != [] && tail == q[|q| - 1] && t !in q && IsTid(t)
    ensures LeadsAlong(next[tail := t][t := -1], head, Rewake(q, t), Dropped(loose, q, [t], Rewake(q, t)))
  {
    hide Distinct;
    Apart(q);
    TailsDistinct(q, t);
    var r, n := Rewake(q, t), next[tail := t][t := -1];
    forall i | 0 <= i < |r| - 1 ensures n[r[i]] == r[i + 1] {
      if i < |q| - 1 { assert next[q[i]] == q[i + 1]; }
    }
  }
}
