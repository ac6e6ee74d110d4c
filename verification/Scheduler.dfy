/**
 The user-level threads: create, yield, exit, kill, sleep and wakeup, each up to its context switch
 (threads/thread.c). Interrupts are off inside each of them.
 */
module Schedulers {
  import opened Sequences
  import opened ReadyLists
  import opened WaitLists
  import opened ThreadSteps

  const EXIT := 2
  const READY := 1
  const NONE_STATE := -1

  /** The first slot of the exit array that is free. */
  ghost function FirstIdle(exits: seq<int>): (n: nat)
    ensures n <= |exits|
    ensures forall i | 0 <= i < n :: exits[i] != -1
    ensures n < |exits| ==> exits[n] == -1
  {
    if exits == [] || exits[0] == -1 then 0 else 1 + FirstIdle(exits[1..])
  }

  lemma FirstIdleIs(exits: seq<int>, n: nat)
    requires n <= |exits| && (forall i | 0 <= i < n :: exits[i] != -1) && (n < |exits| ==> exits[n] == -1)
    ensures FirstIdle(exits) == n
  {
  }

  ghost function Ids(q: seq<int>): set<int>
  {
    set t | t in q
  }

  /** struct wait_queue; the links are whatever malloc returned until they are set. */
  class WaitQueue {
    const links: array<int>
    var head: int
    var tail: int
    ghost var waiting: seq<int>  // the waiting threads, first to sleep first

    ghost predicate Ok()
      reads this, links
    {
      links.Length == THREAD_MAX_THREADS && IsWaitList(links[..], head, tail, waiting)
    }

    /** wait_queue_create: head and tail are set, the links are `garbage`. */
    constructor (garbage: seq<int>)
      requires |garbage| == THREAD_MAX_THREADS
      ensures Ok() && waiting == [] && fresh(links)
    {
      links := new int[THREAD_MAX_THREADS](i requires 0 <= i < THREAD_MAX_THREADS => garbage[i]);
      head, tail := -1, -1;
      waiting := [];
    }

    /**
     The wait queue inside a lock or a condition variable, which lock_create and cv_create leave as malloc
     returned it. It is an empty queue exactly when that memory happens to hold -1 twice.
     */
    constructor Embedded(head: int, tail: int, garbage: seq<int>)
      requires |garbage| == THREAD_MAX_THREADS
      ensures waiting == [] && fresh(links)
      ensures Ok() <==> head == -1 && tail == -1
    {
      links := new int[THREAD_MAX_THREADS](i requires 0 <= i < THREAD_MAX_THREADS => garbage[i]);
      this.head, this.tail := head, tail;
      waiting := [];
    }

    ghost function Q(): Queue
      requires links.Length == THREAD_MAX_THREADS
      reads this, links
    {
      Queue(head, tail, links[..])
    }

    /** In order, or not used by anybody: the head may be left over from a single wake-up, or from malloc. */
    ghost predicate Fits()
      reads this, links
    {
      links.Length == THREAD_MAX_THREADS && (waiting != [] ==> Ok())
    }

    /** A thread goes to the end. With nobody before it the queue is in order exactly if it was, or led to that thread. */
    method Enqueue(t: int)
      requires Fits() && CanEnqueue(Q()) && IsTid(t) && t !in waiting
      modifies this, links
      ensures Q() == Enqueued(old(Q()), t) && waiting == old(waiting) + [t]
      ensures Ok() <==> old(Ok()) || old(head) == t
    {
      EnqueuedIff(Q(), waiting, t);
      ghost var n := links[..];
      if head == -1 && tail == -1 {
        head := t;
        tail := t;
      } else {
        links[tail] := t;
        assert links[..] == n[tail := t];
        tail := t;
      }
      waiting := waiting + [t];
    }

    /** The head moves on; the tail is left as it is (line 750). */
    method TakeHead() returns (t: int)
      requires Fits() && IsTid(head)
      modifies this`head, this`waiting
      ensures Fits() && t == old(head) && Q() == Taken(old(Q()), 0) && waiting == Left(old(waiting), 0)
      ensures old(waiting) != [] ==> (Ok() <==> |old(waiting)| > 1)
    {
      if waiting != [] {
        TakenIff(Q(), waiting, 0);
        WaitTookFirstIff(links[..], head, tail, waiting);
      }
      t := head;
      head := links[head];
      waiting := Left(waiting, 0);
    }
  }

  class Scheduler {
    const next: array<int>
    const state: array<int>
    const noStack: array<bool>
    const exits: array<int>
    var head: int
    var tail: int
    var current: int
    ghost var ready: seq<int>  // the ready queue, first to run first
    ghost var live: set<int>  // the threads that exist: running, ready or waiting
    ghost var loose: set<int>  // the threads outside the ready queue that have a successor

    ghost function P(): Place
      reads this
    {
      Place(current, ready, live, loose)
    }

    ghost predicate Shape()
    {
      && next.Length == state.Length == noStack.Length == exits.Length == THREAD_MAX_THREADS
      && next != state && next != exits && state != exits
    }

    ghost predicate ListOk()
      requires Shape()
      reads this, next
    {
      IsList(next[..], head, tail, ready)
    }

    /** Thread 0 has neither a stack of its own nor a state; the others have both exactly while they live. */
    ghost predicate StatusOk(t: int)
      requires Shape() && IsTid(t)
      reads this`live, state, noStack
    {
      if t != 0 && t in live then state[t] == READY && !noStack[t] else state[t] == NONE_STATE && noStack[t]
    }

    /** The exit array is empty: its first slot is free. The others are free too, or as the loader left them. */
    ghost predicate ExitsIdle()
      requires Shape()
      reads exits
    {
      exits[0] == -1 && (Settled() || forall i | 1 <= i < THREAD_MAX_THREADS :: exits[i] == 0)
    }

    ghost predicate Settled()
      requires Shape()
      reads exits
    {
      forall i | 1 <= i < THREAD_MAX_THREADS :: exits[i] == -1
    }

    ghost predicate Placed()
      reads this
    {
      && IsTid(current) && current in live && current !in ready
      && (forall t | t in live :: IsTid(t)) && (forall t | t in ready :: t in live)
    }

    /** Whenever user code runs. */
    ghost predicate Valid()
      reads this, next, state, noStack, exits
    {
      && Shape() && ListOk() && ExitsIdle() && Placed() && loose == {}
      && forall t | IsTid(t) :: StatusOk(t)
    }

    /** The loader's zeros, then thread_init. */
    constructor ()
      ensures Valid() && ready == [] && current == 0 && live == {0} && !Settled()
      ensures fresh(next) && fresh(state) && fresh(noStack) && fresh(exits)
    {
      hide IsList, FirstIdle;
      next := new int[THREAD_MAX_THREADS](_ => -1);
      state := new int[THREAD_MAX_THREADS](_ => NONE_STATE);
      noStack := new bool[THREAD_MAX_THREADS](_ => true);
      exits := new int[THREAD_MAX_THREADS](i => if i == 0 then -1 else 0);
      head, tail, current := -1, -1, 0;
      ready, live, loose := [], {0}, {};
      new;
      EmptyList(next[..]);
      assert exits[1] == 0 && exits[0] == -1;
      assert ExitsIdle() && Placed();
    }

    /** Forgets the threads in the exit array, up to its first free slot. */
    method CleanExitArray()
      requires Shape() && forall i | 0 <= i < FirstIdle(exits[..]) :: IsTid(exits[i])
      modifies next, state, noStack, exits
      ensures var n, ids := FirstIdle(old(exits[..])), Ids(old(exits[..])[..FirstIdle(old(exits[..]))]);
              && next[..] == Cleared(old(next[..]), ids)
              && (forall t | IsTid(t) :: state[t] == if t in ids then NONE_STATE else old(state[t]))
              && (forall t | IsTid(t) :: noStack[t] == (t in ids || old(noStack[t])))
              && forall i | 0 <= i < THREAD_MAX_THREADS :: exits[i] == if i < n then -1 else old(exits[i])
    {
      ghost var e := exits[..];
      ghost var n := FirstIdle(e);
      var iter := 0;
      while iter < THREAD_MAX_THREADS && exits[iter] != -1
        invariant 0 <= iter <= n
        invariant forall t | IsTid(t) :: next[t] == if t in e[..iter] then -1 else old(next[t])
        invariant forall t | IsTid(t) :: state[t] == if t in e[..iter] then NONE_STATE else old(state[t])
        invariant forall t | IsTid(t) :: noStack[t] == (t in e[..iter] || old(noStack[t]))
        invariant forall i | 0 <= i < THREAD_MAX_THREADS :: exits[i] == if i < iter then -1 else e[i]
      {
        var t := exits[iter];
        next[t] := -1;
        noStack[t] := true;
        state[t] := NONE_STATE;
        exits[iter] := -1;
        assert e[..iter + 1] == e[..iter] + [t];
        iter := iter + 1;
      }
      assert iter == n;
    }

    // ---- thread_create

    /** The least id above 0 that is free, or the number of ids. */
    method FindUnused() returns (iter: int)
      requires Valid()
      ensures 1 <= iter <= THREAD_MAX_THREADS && forall t | 1 <= t < iter :: t in live
      ensures iter < THREAD_MAX_THREADS ==> iter !in live
    {
      iter := 1;
      while iter < THREAD_MAX_THREADS
        invariant 1 <= iter <= THREAD_MAX_THREADS
        invariant forall t | 1 <= t < iter :: t in live
      {
        assert StatusOk(iter);
        if noStack[iter] || state[iter] == NONE_STATE {
          return;
        }
        iter := iter + 1;
      }
    }

    /** Puts a thread that is in no queue, and has no successor noted, at the end of the ready queue. */
    method AppendReady(t: int)
      requires Shape() && ListOk() && IsTid(t) && t !in ready
      modifies this`head, this`tail, this`ready, next
      ensures ListOk() && ready == old(ready) + [t]
    {
      Appended(next[..], head, tail, ready, t);
      ghost var n := next[..];
      if tail == -1 && head == -1 {
        tail := t;
        head := t;
        next[tail] := -1;
        assert next[..] == n;
      } else {
        next[tail] := t;
        assert next[..] == n[tail := t];
        tail := t;
      }
      ready := ready + [t];
    }

    /**
     Makes the least free id above 0 a thread, at the end of the ready queue. `memory` tells whether there is
     room for its stack.
     */
    method Create(memory: bool) returns (ret: int)
      requires Valid()
      modifies this, next, state, noStack
      ensures Valid() && Created(old(P()), P(), memory, ret)
    {
      var iter := FindUnused();
      if iter == THREAD_MAX_THREADS {
        return THREAD_NOMORE;
      }
      if !memory {
        return THREAD_NOMEMORY;
      }
      noStack[iter] := false;
      state[iter] := READY;
      AppendReady(iter);
      live := live + {iter};
      assert forall t | IsTid(t) && t != iter :: old(StatusOk(t));
      return iter;
    }

    // ---- the walk along the ready queue

    /** Looks for `tid`; `pre` is the thread before it, or the thread itself at the head. */
    method FindReady(tid: int) returns (temp: int, pre: int)
      requires Shape() && ListOk() && ready != []
      ensures tid !in ready || tid == -1 ==> temp == -1
      ensures tid in ready && tid != -1 ==> temp == tid
      ensures temp != -1 ==> exists i :: 0 <= i < |ready| && ready[i] == tid && pre == Before(ready, i)
    {
      temp := head;
      pre := temp;
      ghost var i := 0;
      while temp != -1 && temp != tid
        invariant 0 <= i <= |ready|
        invariant temp == if i < |ready| then ready[i] else -1
        invariant i < |ready| ==> pre == Before(ready, i)
        invariant tid !in ready[..i]
        decreases |ready| - i
      {
        pre := temp;
        temp := next[temp];
        i := i + 1;
      }
      if temp == -1 {
        assert i == |ready|;
        assert ready[..i] == ready;
      } else {
        assert ready[i] == tid;
      }
    }

    // ---- thread_kill

    /** Cuts thread `tid` out of a ready queue of several; `false` when it is not in it. */
    method Unlink(tid: int) returns (found: bool)
      requires Shape() && ListOk() && |ready| > 1 && tid != -1
      modifies this`head, this`tail, this`ready, next
      ensures ListOk() && found == (tid in old(ready))
      ensures !found ==> ready == old(ready)
      ensures found ==> exists i: nat :: i < |old(ready)| && old(ready)[i] == tid && ready == Without(old(ready), i)
    {
      var temp, pre := FindReady(tid);
      if temp == -1 {
        return false;
      }
      ghost var i: nat :| i < |ready| && ready[i] == tid && pre == Before(ready, i);
      ghost var n, h, l := next[..], head, tail;
      Unlinked(n, head, tail, ready, i);
      next[pre] := next[tid];
      if tid == tail {
        tail := pre;
      }
      if tid == head {
        head := next[tid];
      }
      next[tid] := -1;
      assert next[..] == n[pre := n[tid]][tid := -1];
      ready := Without(ready, i);
      return true;
    }

    /** Takes the only thread out of the ready queue. */
    method TakeOnly()
      requires Shape() && ListOk() && |ready| == 1
      modifies this`head, this`tail, this`ready, next
      ensures ListOk() && ready == []
    {
      TookFirst(next[..], head, tail, ready);
      ghost var n, t := next[..], head;
      var only := tail;
      tail := -1;
      head := -1;
      next[only] := -1;
      assert next[..] == n[t := -1];
      ready := ready[1..];
    }

    /** Takes the first of several threads out of the ready queue. */
    method TakeFirst() returns (t: int)
      requires Shape() && ListOk() && |ready| > 1
      modifies this`head, this`tail, this`ready, next
      ensures ListOk() && t == old(ready)[0] && ready == old(ready)[1..]
    {
      TookFirst(next[..], head, tail, ready);
      ghost var n := next[..];
      t := head;
      head := next[head];
      next[t] := -1;
      assert next[..] == n[t := -1];
      ready := ready[1..];
    }

    /**
     Kills a ready thread other than thread 0, whose state is never READY. An id inside the control codes, or
     one behind the table, is outside the array the code looks it up in.
     */
    method Kill(tid: int) returns (ret: int)
      requires Valid()
      requires tid > THREAD_MAX_THREADS || tid < -7 || tid == THREAD_SELF || IsTid(tid)
      modifies this, next, state, noStack
      ensures Valid() && Killed(old(P()), P(), tid, ret)
    {
      if tid > THREAD_MAX_THREADS || tid < -7 {
        return THREAD_INVALID;
      }
      if tid == THREAD_SELF || tid == current {
        return THREAD_INVALID;
      }
      assert StatusOk(tid);
      if state[tid] == NONE_STATE {
        return THREAD_INVALID;
      }
      HeadIsTail(next[..], head, tail, ready);
      if tail == head {
        if tid == tail {
          TakeOnly();
          assert ready == Without(old(ready), 0);
        } else {
          return THREAD_INVALID;
        }
      } else {
        var found := Unlink(tid);
        if !found {
          return THREAD_INVALID;
        }
      }
      Forget(tid, old(ready));
      return tid;
    }

    /** The thread cut out of the ready queue loses its stack and its state. */
    method Forget(tid: int, ghost old_ready: seq<int>)
      requires Shape() && ListOk() && ExitsIdle() && tid in old_ready && tid != 0 && tid != current && loose == {}
      requires exists i: nat :: i < |old_ready| && old_ready[i] == tid && ready == Without(old_ready, i)
      requires Distinct(old_ready, THREAD_MAX_THREADS) && IsTid(current) && current in live && current !in old_ready
      requires (forall t | t in live :: IsTid(t)) && (forall t | t in old_ready :: t in live)
      requires forall t | IsTid(t) :: StatusOk(t)
      modifies this`live, next, state, noStack
      ensures Valid() && live == old(live) - {tid}
    {
      ghost var i: nat :| i < |old_ready| && old_ready[i] == tid && ready == Without(old_ready, i);
      WithoutDistinct(old_ready, THREAD_MAX_THREADS, i);
      ghost var n := next[..];
      next[tid] := -1;
      assert next[..] == n;
      noStack[tid] := true;
      state[tid] := NONE_STATE;
      live := live - {tid};
      assert forall t | IsTid(t) && t != tid :: old(StatusOk(t));
    }

    // ---- thread_yield

    /** Position `i` of the ready queue runs, the caller goes to its end. */
    ghost predicate RotatedAt(q: seq<int>, r: seq<int>, i: nat, caller: int)
    {
      i < |q| && r == Without(q, i) + [caller]
    }

    /** The only ready thread changes places with the caller. */
    method RotateOnly() returns (t: int)
      requires Shape() && ListOk() && |ready| == 1 && IsTid(current) && current !in ready
      modifies this`head, this`tail, this`ready, next
      ensures ListOk() && t == old(ready)[0] && RotatedAt(old(ready), ready, 0, current)
    {
      t := tail;
      tail := current;
      head := current;
      next[t] := -1;
      next[current] := -1;
      ready := [current];
    }

    /** The first of several ready threads goes, the caller comes to the end. */
    method RotateFirst() returns (t: int)
      requires Shape() && ListOk() && |ready| > 1 && IsTid(current) && current !in ready
      modifies this`head, this`tail, this`ready, next
      ensures ListOk() && t == old(ready)[0] && RotatedAt(old(ready), ready, 0, current)
    {
      ghost var n := next[..];
      RotatedList(n, head, tail, ready, 0, current);
      t := head;
      head := next[head];
      next[tail] := current;
      tail := current;
      next[tail] := -1;
      next[t] := -1;
      assert next[..] == Rotated(n, ready, 0, current);
      ready := Without(ready, 0) + [current];
    }

    /** A thread found at position `i` goes, the caller comes to the end. */
    method RotateFound(want: int, pre: int, ghost i: nat)
      requires Shape() && ListOk() && |ready| > 1 && IsTid(current) && current !in ready
      requires i < |ready| && ready[i] == want && pre == Before(ready, i)
      modifies this`head, this`tail, this`ready, next
      ensures ListOk() && RotatedAt(old(ready), ready, i, current)
    {
      ghost var n, h := next[..], head;
      RotatedList(n, head, tail, ready, i, current);
      assert want == tail <==> i == |ready| - 1;
      assert want == head <==> i == 0;
      next[pre] := next[want];
      if want != tail {
        next[tail] := current;
        tail := current;
        if want == head {
          head := next[head];
        }
        next[want] := -1;
        next[tail] := -1;
      } else {
        next[pre] := current;
        tail := current;
        next[want] := -1;
        next[tail] := -1;
      }
      assert next[..] == Rotated(n, ready, i, current);
      ready := Without(ready, i) + [current];
    }

    /** The choice of the next thread for a caller that goes on living. */
    method Rotate(want: int) returns (t: int)
      requires Shape() && ListOk() && ready != [] && IsTid(current) && current !in ready && want != current
      modifies this`head, this`tail, this`ready, next
      ensures ListOk()
      ensures t == -1 ==> ready == old(ready) && want != THREAD_ANY && want !in ready
      ensures t != -1 ==> exists i: nat :: Chosen(old(ready), want, i) && t == old(ready)[i] &&
                                           RotatedAt(old(ready), ready, i, current)
    {
      HeadIsTail(next[..], head, tail, ready);
      if tail == head {
        if want == tail || want == THREAD_ANY {
          t := RotateOnly();
          assert Chosen(old(ready), want, 0);
        } else {
          return -1;
        }
      } else {
        if want == THREAD_ANY {
          t := RotateFirst();
          assert Chosen(old(ready), want, 0);
        } else {
          var temp, pre := FindReady(want);
          if temp == -1 {
            return -1;
          }
          ghost var i: nat :| i < |ready| && ready[i] == want && pre == Before(ready, i);
          RotateFound(want, pre, i);
          assert Chosen(old(ready), want, i);
          t := temp;
        }
      }
    }

    /** The choice of the next thread for a caller that has exited. */
    method Take(want: int) returns (t: int)
      requires Shape() && ListOk() && ready != [] && want != current
      modifies this`head, this`tail, this`ready, next
      ensures ListOk()
      ensures t == -1 ==> ready == old(ready) && want != THREAD_ANY && want !in ready
      ensures t != -1 ==> exists i: nat :: Chosen(old(ready), want, i) && t == old(ready)[i] &&
                                           ready == Without(old(ready), i)
      ensures want == THREAD_ANY ==> t == old(ready)[0] && ready == old(ready)[1..]
    {
      HeadIsTail(next[..], head, tail, ready);
      if tail == head {
        if want == tail || want == THREAD_ANY {
          t := tail;
          TakeOnly();
          assert Chosen(old(ready), want, 0) && ready == Without(old(ready), 0);
        } else {
          return -1;
        }
      } else {
        if want == THREAD_ANY {
          t := TakeFirst();
          assert Chosen(old(ready), want, 0) && ready == Without(old(ready), 0);
        } else {
          var found := Unlink(want);
          if !found {
            return -1;
          }
          t := want;
        }
      }
    }

    /** The switch to thread `t`, which first of all cleans up after threads that have exited. */
    method SwitchTo(t: int)
      requires Shape() && forall i | 0 <= i < FirstIdle(exits[..]) :: IsTid(exits[i])
      modifies this`current, next, state, noStack, exits
      ensures current == t
      ensures var n, ids := FirstIdle(old(exits[..])), Ids(old(exits[..])[..FirstIdle(old(exits[..]))]);
              && next[..] == Cleared(old(next[..]), ids)
              && (forall k | IsTid(k) :: state[k] == if k in ids then NONE_STATE else old(state[k]))
              && (forall k | IsTid(k) :: noStack[k] == (k in ids || old(noStack[k])))
              && forall i | 0 <= i < THREAD_MAX_THREADS :: exits[i] == if i < n then -1 else old(exits[i])
    {
      current := t;
      CleanExitArray();
    }

    /** The switch away from a live thread: there is nothing to clean up. */
    method SwitchLive(t: int)
      requires Shape() && ListOk() && ExitsIdle()
      modifies this`current, next, state, noStack, exits
      ensures current == t && next[..] == old(next[..]) && state[..] == old(state[..])
      ensures noStack[..] == old(noStack[..]) && exits[..] == old(exits[..])
    {
      FirstIdleIs(exits[..], 0);
      SwitchTo(t);
      assert next[..] == old(next[..]);
    }

    /**
     Runs another thread: the first ready one, or a given ready one. The caller goes to the end of the ready
     queue. Nothing changes when there is no such thread.
     */
    method Yield(want: int) returns (ret: int)
      requires Valid()
      modifies this, next, state, noStack, exits
      ensures Valid() && exits[..] == old(exits[..])
      ensures Yielded(old(P()), P(), want, ret)
    {
      hide IsList, FirstIdle, Without;
      ListIsDistinct(next[..], head, tail, ready);
      if want == THREAD_SELF {
        return current;
      }
      if want == current {
        return current;
      }
      if want > THREAD_MAX_THREADS || want < -7 {
        return THREAD_INVALID;
      }
      HeadIsTail(next[..], head, tail, ready);
      if tail == -1 && head == -1 {
        if want == THREAD_ANY {
          return THREAD_NONE;
        } else {
          return THREAD_INVALID;
        }
      }
      var threadToYield := Rotate(want);
      if threadToYield == -1 {
        return THREAD_INVALID;
      }
      ghost var i: nat :| Chosen(old(ready), want, i) && threadToYield == old(ready)[i] &&
                          RotatedAt(old(ready), ready, i, current);
      SwitchLive(threadToYield);
      assert current == old(ready)[i];
      StillPlaced(old(ready), i, old(current));
      assert forall t | IsTid(t) :: old(StatusOk(t));
      return threadToYield;
    }

    lemma StillPlaced(q: seq<int>, i: nat, caller: int)
      requires Distinct(q, THREAD_MAX_THREADS) && IsTid(caller) && caller in live && caller !in q
      requires RotatedAt(q, ready, i, caller)
      requires current == q[i]
      requires (forall t | t in live :: IsTid(t)) && (forall t | t in q :: t in live)
      ensures Placed()
    {
      WithoutDistinct(q, THREAD_MAX_THREADS, i);
    }

    // ---- thread_exit

    /** Puts the caller into the first free slot of the exit array. */
    method NoteExit()
      requires Shape() && FirstIdle(exits[..]) < THREAD_MAX_THREADS
      modifies exits
      ensures exits[..] == old(exits[..])[FirstIdle(old(exits[..])) := current]
    {
      ghost var e := exits[..];
      var iter := 0;
      while iter < THREAD_MAX_THREADS
        invariant 0 <= iter <= FirstIdle(e) && exits[..] == e
      {
        if exits[iter] == -1 {
          exits[iter] := current;
          return;
        }
        iter := iter + 1;
      }
    }

    /** The caller is noted as exited, and `t` runs and cleans up. */
    method Depart(t: int, ghost settled: bool)
      requires Shape() && ListOk() && ExitsIdle() && settled == Settled()
      requires IsTid(current) && current !in ready && t !in ready
      requires forall k | IsTid(k) && k != current :: StatusOk(k)
      modifies this`current, this`ready, this`live, this`loose, next, state, noStack, exits
      ensures current == t && exits[0] == -1 && Settled()
      ensures ready == if settled then old(ready) else UpToZero(old(ready))
      ensures loose == CutOff(old(ready), ready) && LeadsAlong(next[..], head, ready, loose)
      ensures ListOk() <==> settled || ZeroHarmless(old(ready))
      ensures live == old(live) - {old(current)} && forall k | IsTid(k) :: StatusOk(k)
    {
      hide IsList, LeadsAlong, ZeroHarmless, UpToZero, Cleared, FirstIdle, Ids;
      FirstIdleIs(exits[..], 0);
      NoteExit();
      ghost var caller, n, e := current, next[..], exits[..];
      ExitIds(e, caller, settled);
      SwitchTo(t);
      AfterExit(n, head, tail, ready, caller, settled);
      ghost var q := ready;
      ready := if settled then q else UpToZero(q);
      loose := CutOff(q, ready);
      live := live - {caller};
      assert forall k | IsTid(k) && k != caller :: old(StatusOk(k));
    }

    // ---- thread_sleep, thread_wakeup

    /**
     The caller waits in `queue`, and the first ready thread runs; nothing happens if there is none. The queue need
     not be in order. If nobody waits in it, it leads to the caller afterwards exactly if it was empty or its head,
     left over from a single wake-up, happens to be the caller.
     */
    method Sleep(queue: WaitQueue?) returns (ret: int)
      requires Valid() && (queue != null ==> queue.Fits() && current !in queue.waiting && Apart(queue))
      requires queue != null && ready != [] ==> CanEnqueue(queue.Q())
      modifies this, next, state, noStack, exits, queue, if queue != null then {queue.links} else {}
      ensures Valid()
      ensures queue == null ==> ret == THREAD_INVALID && P() == old(P())
      ensures queue != null ==> Slept(old(P()), old(queue.waiting), P(), queue.waiting, ret)
      ensures queue != null ==> queue.Q() == if old(ready) == [] then old(queue.Q()) else Enqueued(old(queue.Q()), old(current))
      ensures queue != null ==>
                (queue.Ok() <==> old(queue.Ok()) || (old(ready) != [] && old(queue.head) == old(current)))
    {
      hide IsList, IsWaitList, FirstIdle, Distinct;
      if queue == null {
        return THREAD_INVALID;
      }
      HeadIsTail(next[..], head, tail, ready);
      ListIsDistinct(next[..], head, tail, ready);
      if tail == -1 && head == -1 {
        return THREAD_NONE;
      }
      ghost var q := ready;
      queue.Enqueue(current);
      var threadToYield;
      if tail == head {
        threadToYield := tail;
        OnlyIsTail();
        TakeOnly();
      } else {
        threadToYield := TakeFirst();
      }
      RestApart(q);
      SwitchLive(threadToYield);
      assert forall t | IsTid(t) :: old(StatusOk(t));
      return threadToYield;
    }

    lemma RestApart(q: seq<int>)
      requires Distinct(q, THREAD_MAX_THREADS) && q != []
      ensures IsTid(q[0]) && forall k | k in q[1..] :: k in q && k != q[0]
    {
    }

    lemma OnlyIsTail()
      requires Shape() && ListOk() && |ready| == 1
      ensures tail == ready[0]
    {
    }

    /** The waiting threads exist and neither run nor are ready. */
    ghost predicate MayWake(queue: WaitQueue)
      reads this, queue
    {
      forall t | t in queue.waiting :: t in live && t != current && t !in ready
    }

    /** The links lead along the ready queue up to the tail. */
    ghost predicate Trail()
      requires Shape()
      reads this, next
    {
      && LeadsAlong(next[..], head, ready, loose) && (forall t | t in loose :: t !in ready)
      && tail == if ready == [] then -1 else ready[|ready| - 1]
    }

    /** A woken thread becomes the end of the ready queue. If it is ready already, those behind it are dropped. */
    method WakeThread(t: int)
      requires Shape() && Trail() && IsTid(t)
      modifies this`head, this`tail, this`ready, this`loose, next
      ensures Trail() && ready == Rewake(old(ready), t) && loose == Dropped(old(loose), old(ready), [t], ready)
    {
      hide LeadsAlong, Rewake;
      PutAtEnd(next[..], head, tail, ready, loose, t);
      TrailEnds();
      ghost var n := next[..];
      if tail == -1 && head == -1 {
        tail := t;
        head := t;
        next[t] := -1;
        assert next[..] == n[t := -1];
      } else {
        next[tail] := t;
        next[t] := -1;
        assert next[..] == n[tail := t][t := -1];
        tail := t;
      }
      ghost var q := ready;
      ready := Rewake(q, t);
      loose := Dropped(loose, q, [t], ready);
    }

    lemma TrailEnds()
      requires Shape() && Trail()
      ensures tail == -1 && head == -1 <==> ready == []
      ensures ready != [] ==> IsTid(tail)
    {
    }

    /** Wakes the thread at the head, waiting or not. */
    method WakeOne(queue: WaitQueue)
      requires Shape() && Trail() && queue.Fits() && Apart(queue) && IsTid(queue.head)
      modifies this`head, this`tail, this`ready, this`loose, next, queue`head, queue`waiting
      ensures Trail() && queue.Fits() && queue.waiting == Left(old(queue.waiting), 0)
      ensures WokeThese(old(P()), old(queue.Q()), P(), queue.Q(), 0, 1, [old(queue.head)])
    {
      hide LeadsAlong, Rewake, Rewoken, IsWaitList, Dropped, WaitQueue.Fits;
      ghost var c := [queue.head];
      RewokenOne(ready, queue.head);
      var t := queue.TakeHead();
      WakeThread(t);
    }

    /** Wakes the threads from the head to the tail, waiting or not. */
    method WakeAll(queue: WaitQueue, ghost c: seq<int>) returns (count: int)
      requires Shape() && Trail() && queue.Fits() && Apart(queue) && Chain(queue.Q(), 1, c)
      modifies this`head, this`tail, this`ready, this`loose, next, queue`head, queue`tail, queue`waiting
      ensures Trail() && queue.Fits() && queue.waiting == []
      ensures WokeThese(old(P()), old(queue.Q()), P(), queue.Q(), 1, count, c)
    {
      hide LeadsAlong, Rewake, Rewoken, IsWaitList, Dropped, WaitQueue.Ok;
      ghost var q := ready;
      count := 0;
      TrailIsDistinct();
      RewokenNone(q, loose, c);
      assert c[..0] == [];
      while queue.head != queue.tail
        invariant 0 <= count < |c| && queue.head == c[count] && queue.tail == c[|c| - 1] && queue.Fits()
        invariant Trail() && ready == Rewoken(q, c[..count]) && loose == Dropped(old(loose), q, c[..count], ready)
        decreases |c| - count
      {
        RewokenNext(q, c, count);
        ghost var r, l := ready, loose;
        var t := queue.TakeHead();
        WakeThread(t);
        DroppedOneMore(old(loose), q, c, count, r, ready);
        count := count + 1;
      }
      var t := queue.head;
      ghost var r := ready;
      RewokenNext(q, c, count);
      WakeThread(t);
      DroppedOneMore(old(loose), q, c, count, r, ready);
      queue.head := -1;
      queue.tail := -1;
      queue.waiting := [];
      count := count + 1;
      assert c[..count] == c;
    }

    lemma TrailIsDistinct()
      requires Shape() && Trail()
      ensures Distinct(ready, THREAD_MAX_THREADS) && Dropped(loose, ready, [], ready) == loose
    {
    }

    /**
     Wakes one waiter, all of them or, for another argument, none; returns how many. Of a queue that is not in order
     the threads that it leads along are woken, ready or not, and the ready queue is in order afterwards exactly if
     nobody was dropped from it and all in it exist and do not run.
     */
    method Wakeup(queue: WaitQueue?, all: int) returns (ret: int)
      requires Valid() && (queue != null ==> queue.Fits() && Apart(queue))
      requires queue != null && (all == 0 || all == 1) && !Idle(queue.Q()) ==> exists c :: Chain(queue.Q(), all, c)
      modifies this`head, this`tail, this`ready, this`loose, next, queue
      ensures queue == null ==> ret == 0 && P() == old(P())
      ensures queue != null ==> WokeChain(old(P()), old(queue.Q()), P(), queue.Q(), all, ret)
      ensures Shape() && Trail()
      ensures Valid() <==> loose == {} && current !in ready && forall t | t in ready :: t in live
      ensures queue != null && old(queue.Ok() && MayWake(queue)) ==>
                && Valid() && Woke(old(P()), old(queue.waiting), P(), queue.waiting, all, ret)
                && (queue.Ok() <==> !(all == 0 && |old(queue.waiting)| == 1))
    {
      hide IsList, LeadsAlong, Rewoken, Dropped, FirstIdle, Chain;
      ListIff(next[..], head, tail, ready);
      if queue == null {
        return 0;
      } else if queue.head == -1 && queue.tail == -1 {
        return 0;
      }
      if all == 0 {
        ghost var c :| Chain(queue.Q(), all, c);
        OneInChain(queue.Q(), c);
        WakeOne(queue);
        ret := 1;
      } else if all == 1 {
        ghost var c :| Chain(queue.Q(), all, c);
        ret := WakeAll(queue, c);
      } else {
        return 0;
      }
      ListIff(next[..], head, tail, ready);
      if old(queue.Ok() && MayWake(queue)) {
        WokeWaiters(old(P()), old(queue.Q()), old(queue.waiting), P(), queue.Q(), all, ret);
      }
    }

    /** The arrays of a wait queue are not those of the thread table. */
    ghost predicate Apart(queue: WaitQueue)
    {
      queue.links != next && queue.links != state && queue.links != exits
    }

    /** Everything but the ready queue is in order. */
    ghost predicate AllButList()
      reads this, next, state, noStack, exits
    {
      Shape() && ExitsIdle() && Placed() && forall t | IsTid(t) :: StatusOk(t)
    }

    /** The exit of a thread when another can run. */
    method ExitTo() returns (t: int)
      requires Valid() && ready != []
      modifies this, next, state, noStack, exits
      ensures current == t == old(ready)[0] && live == old(live) - {old(current)}
      ensures ready == if old(Settled()) then old(ready)[1..] else UpToZero(old(ready)[1..])
      ensures AllButList() && Settled() && LeadsAlong(next[..], head, ready, loose)
      ensures loose == CutOff(old(ready)[1..], ready)
      ensures ListOk() <==> old(Settled()) || ZeroHarmless(old(ready)[1..])
    {
      hide IsList, Without, Chosen, FirstIdle, ZeroHarmless, LeadsAlong, UpToZero;
      ghost var q := ready;
      ListIsDistinct(next[..], head, tail, ready);
      assert forall k | IsTid(k) :: old(StatusOk(k));
      state[current] := EXIT;
      t := Take(THREAD_ANY);
      assert forall k | k in ready :: k in q && k != q[0];
      ghost var r := ready;
      Depart(t, old(Settled()));
      assert ready <= r;
      assert forall k | k in ready :: k in r;
    }

    /**
     Ends the calling thread; the first ready thread runs and cleans up. In the first clean-up of all the
     slots that still hold the loader's zeros cut the link of thread 0 as well (line 40). The head then leads to
     the threads up to thread 0 only, while the tail is behind them.
     */
    method Exit() returns (ret: int)
      requires Valid()
      modifies this, next, state, noStack, exits
      ensures Exited(old(P()), old(Settled()), P(), ret)
      ensures old(ready) == [] ==> Valid()
      ensures old(ready) != [] ==> Shape() && Settled() && LeadsAlong(next[..], head, ready, loose)
      ensures old(ready) != [] ==> (Valid() <==> old(Settled()) || ZeroHarmless(old(ready)[1..]))
    {
      HeadIsTail(next[..], head, tail, ready);
      if head != -1 || tail != -1 {
        var threadToYield := ExitTo();
        return 0;
      }
      return THREAD_NONE;
    }
  }

  /** The ids that are cleaned up after one exit. */
  lemma ExitIds(e: seq<int>, caller: int, settled: bool)
    requires |e| == THREAD_MAX_THREADS && e[0] == caller && IsTid(caller)
    requires forall i | 1 <= i < THREAD_MAX_THREADS :: e[i] == if settled then -1 else 0
    ensures FirstIdle(e) == if settled then 1 else THREAD_MAX_THREADS
    ensures Ids(e[..FirstIdle(e)]) == if settled then {caller} else {caller, 0}
  {
    FirstIdleIs(e, if settled then 1 else THREAD_MAX_THREADS);
    if !settled {
      assert e[..THREAD_MAX_THREADS][1] == 0;
    }
  }

  lemma OneInChain(q: Queue, c: seq<int>)
    requires Chain(q, 0, c)
    ensures IsTid(q.head) && c == [q.head]
  {
  }

  lemma RewokenOne(q: seq<int>, t: int)
    ensures Rewoken(q, [t]) == Rewake(q, t)
  {
    assert [t][..0] == [];
  }

  lemma RewokenNone(q: seq<int>, loose: set<int>, c: seq<int>)
    ensures Rewoken(q, []) == q
  {
  }

  lemma DroppedOneMore(loose: set<int>, q: seq<int>, c: seq<int>, n: nat, r: seq<int>, r2: seq<int>)
    requires n < |c| && Distinct(q, THREAD_MAX_THREADS) && r == Rewoken(q, c[..n]) && forall i | 0 <= i < |c| :: IsTid(c[i])
    ensures Dropped(Dropped(loose, q, c[..n], r), r, [c[n]], r2) == Dropped(loose, q, c[..n + 1], r2)
  {
    RewokenMembers(q, c[..n]);
    DroppedNext(loose, q, c, n, r, r2);
  }
}
