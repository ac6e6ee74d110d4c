/**
 The bounded buffer between the server's main thread and its workers (webserver/server_thread.c): a ring of
 `max_requests + 1` slots, and what a critical section does to it.
 */
module RequestBuffers {
  /** One pass of the main thread through its critical section: it puts a descriptor, or finds the buffer full. */
  datatype PutResult = MustWaitFull | Put(signalEmpty: bool)

  /** One pass of a worker: it gets a descriptor, or finds the buffer empty. */
  datatype GetResult = MustWaitEmpty | Got(fd: int, signalFull: bool)

  ghost predicate PutStep(q: seq<int>, max: nat, fd: int, r: PutResult, q2: seq<int>)
  {
    if |q| == max then r == MustWaitFull && q2 == q
    else r == Put(q == []) && q2 == q + [fd]
  }

  ghost predicate GetStep(q: seq<int>, max: nat, r: GetResult, q2: seq<int>)
  {
    if q == [] then r == MustWaitEmpty && q2 == q
    else r == Got(q[0], |q| == max) && q2 == q[1..]
  }

  /** The index after `i` in a ring of `n` slots. */
  function Succ(i: nat, n: nat): nat
  {
    if i + 1 == n then 0 else i + 1
  }

  lemma Multiple(q: int, n: nat)
    ensures q >= 1 ==> q * n >= n
    ensures q <= -1 ==> q * n + n <= 0
  {
    if q >= 1 { assert (q - 1) * n >= 0; }
    if q <= -1 { assert (-q - 1) * n >= 0; }
  }

  lemma Remainder(x: nat, n: nat)
    requires 0 < n && x < 2 * n
    ensures x % n == if x < n then x else x - n
  {
    var y := if x < n then x else x - n;
    var q := x / n - (if x < n then 0 else 1);
    assert q * n == y - x % n;
    Multiple(q, n);
  }

  /** The slots from `out` up to but not including `inn`, around the end of the array. */
  ghost function Slots(a: seq<int>, inn: nat, out: nat): (q: seq<int>)
    requires inn < |a| && out < |a|
    ensures |q| < |a|
  {
    if out <= inn then a[out..inn] else a[out..] + a[..inn]
  }

  /** The number of slots in use, and the index after `i`, as the code computes them. */
  function InUse(inn: nat, out: nat, max: nat): int
  {
    (inn - out + max + 1) % (max + 1)
  }

  function After(i: nat, max: nat): nat
  {
    (i + 1) % (max + 1)
  }

  lemma SlotsCount(a: seq<int>, inn: nat, out: nat)
    requires inn < |a| && out < |a|
    ensures InUse(inn, out, |a| - 1) == |Slots(a, inn, out)|
    ensures Slots(a, inn, out) == [] <==> inn == out
    ensures After(inn, |a| - 1) == Succ(inn, |a|) && After(out, |a| - 1) == Succ(out, |a|)
  {
    Remainder(inn - out + |a|, |a|);
    Remainder(inn + 1, |a|);
    Remainder(out + 1, |a|);
  }

  lemma SlotsPut(a: seq<int>, inn: nat, out: nat, fd: int)
    requires inn < |a| && out < |a| && |Slots(a, inn, out)| < |a| - 1
    ensures Slots(a[inn := fd], Succ(inn, |a|), out) == Slots(a, inn, out) + [fd]
  {
  }

  lemma SlotsGet(a: seq<int>, inn: nat, out: nat)
    requires inn < |a| && out < |a| && inn != out
    ensures Slots(a, inn, out) == [a[out]] + Slots(a, inn, Succ(out, |a|))
  {
    if out < inn {
      assert a[out..inn] == [a[out]] + a[out + 1..inn];
    } else {
      var front := a[..inn];
      assert a[out..] == [a[out]] + a[out + 1..];
      assert [a[out]] + a[out + 1..] + front == [a[out]] + (a[out + 1..] + front);
    }
  }

  class Server {
    const maxRequests: nat
    const buf: array<int>
    var inn: nat
    var out: nat

    ghost predicate Valid()
      reads this, buf
    {
      buf.Length == maxRequests + 1 && inn < buf.Length && out < buf.Length
    }

    ghost function Contents(): (q: seq<int>)
      requires Valid()
      reads this, buf
      ensures |q| <= maxRequests
    {
      Slots(buf[..], inn, out)
    }

    constructor (maxRequests: nat)
      requires maxRequests > 0
      ensures Valid() && this.maxRequests == maxRequests && Contents() == [] && fresh(buf)
    {
      this.maxRequests := maxRequests;
      buf := new int[maxRequests + 1];
      inn, out := 0, 0;
    }

    /** The body of server_request between locking and waiting or unlocking. */
    method PutRequest(connfd: int) returns (r: PutResult)
      requires Valid()
      modifies this`inn, buf
      ensures Valid() && PutStep(old(Contents()), maxRequests, connfd, r, Contents())
    {
      hide InUse, After;
      SlotsCount(buf[..], inn, out);
      if InUse(inn, out, maxRequests) == maxRequests {
        return MustWaitFull;
      }
      SlotsPut(buf[..], inn, out, connfd);
      ghost var a := buf[..];
      buf[inn] := connfd;
      assert buf[..] == a[inn := connfd];
      r := Put(inn == out);
      inn := After(inn, maxRequests);
    }

    /** The body of a worker's loop between locking and waiting or unlocking. */
    method GetRequest() returns (r: GetResult)
      requires Valid()
      modifies this`out
      ensures Valid() && GetStep(old(Contents()), maxRequests, r, Contents())
    {
      hide InUse, After;
      SlotsCount(buf[..], inn, out);
      if inn == out {
        return MustWaitEmpty;
      }
      SlotsGet(buf[..], inn, out);
      var connfd := buf[out];
      r := Got(connfd, InUse(inn, out, maxRequests) == maxRequests);
      out := After(out, maxRequests);
    }
  }
}
