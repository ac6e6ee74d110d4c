/**
 The main thread and the workers around the bounded buffer (webserver/server_thread.c). A step is one stretch of
 code run with the lock held, up to the wait or the unlock that ends it. A signal wakes one waiting thread if there
 is one and is lost otherwise; a wait may also end without a signal.
 */
module RequestRuns {
  import opened RequestBuffers

  /** The main thread, outside the lock: free to take a connection, blocked in the wait with one, or woken with it. */
  datatype Producer = Free | Blocked(fd: int) | Woken(fd: int)

  /** A worker, outside the lock: serving or about to lock, blocked in the wait, or woken. */
  datatype Worker = Running | Asleep | Roused

  /** `put` and `got` record every descriptor that has entered and left the buffer. */
  datatype State = State(q: seq<int>, main: Producer, workers: seq<Worker>, put: seq<int>, got: seq<int>)

  datatype Step =
    | Submit(fd: int)     // the main thread calls server_request
    | Retry               // the main thread, woken, tests the buffer again
    | Fetch(w: nat)       // worker w locks, or is woken, and tests the buffer
    | StrayMain           // a wait of the main thread ends without a signal
    | StrayWorker(w: nat) // a wait of worker w ends without a signal

  /** The workers after a signal on `empty`. */
  ghost predicate Signalled(ws: seq<Worker>, ws2: seq<Worker>)
  {
    if Asleep in ws then exists w :: 0 <= w < |ws| && ws[w] == Asleep && ws2 == ws[w := Roused]
    else ws2 == ws
  }

  /** The main thread after a signal on `full`. */
  function SignalMain(p: Producer): Producer
  {
    match p
    case Blocked(fd) => Woken(fd)
    case _ => p
  }

  ghost predicate Produce(max: nat, s: State, fd: int, t: State)
  {
    exists r ::
      PutStep(s.q, max, fd, r, t.q) && t.got == s.got &&
      match r
      case MustWaitFull => t.main == Blocked(fd) && t.workers == s.workers && t.put == s.put
      case Put(signal) =>
        t.main == Free && t.put == s.put + [fd] &&
        if signal then Signalled(s.workers, t.workers) else t.workers == s.workers
  }

  ghost predicate Consume(max: nat, s: State, w: nat, t: State)
    requires w < |s.workers|
  {
    exists r ::
      GetStep(s.q, max, r, t.q) && t.put == s.put &&
      match r
      case MustWaitEmpty => t.main == s.main && t.workers == s.workers[w := Asleep] && t.got == s.got
      case Got(fd, signal) =>
        t.got == s.got + [fd] && t.workers == s.workers[w := Running] &&
        t.main == if signal then SignalMain(s.main) else s.main
  }

  /** Whether the thread that takes a step is not blocked in a wait. */
  predicate CanRun(s: State, step: Step)
  {
    match step
    case Submit(_) => s.main.Free?
    case Retry => s.main.Woken?
    case Fetch(w) => w < |s.workers| && s.workers[w] != Asleep
    case StrayMain => s.main.Blocked?
    case StrayWorker(w) => w < |s.workers| && s.workers[w] == Asleep
  }

  ghost predicate Next(max: nat, s: State, step: Step, t: State)
  {
    CanRun(s, step) &&
    match step
    case Submit(fd) => Produce(max, s, fd, t)
    case Retry => Produce(max, s, s.main.fd, t)
    case Fetch(w) => Consume(max, s, w, t)
    case StrayMain => t == s.(main := SignalMain(s.main))
    case StrayWorker(w) => t == s.(workers := s.workers[w := Roused])
  }

  ghost predicate Init(n: nat, s: State)
  {
    s == State([], Free, seq(n, _ => Running), [], [])
  }

  ghost predicate Run(max: nat, ss: seq<State>, steps: seq<Step>)
  {
    |ss| == |steps| + 1 && forall k :: 0 <= k < |steps| ==> Next(max, ss[k], steps[k], ss[k + 1])
  }

  /** Some worker is not blocked. */
  predicate Awake(ws: seq<Worker>)
  {
    exists w :: 0 <= w < |ws| && ws[w] != Asleep
  }

  ghost predicate Inv(max: nat, n: nat, s: State)
  {
    |s.workers| == n && |s.q| <= max &&
    s.put == s.got + s.q &&
    (s.main.Blocked? ==> |s.q| == max) &&
    (s.q != [] ==> Awake(s.workers))
  }

  lemma SignalWakes(ws: seq<Worker>, ws2: seq<Worker>)
    requires Signalled(ws, ws2) && ws != []
    ensures |ws2| == |ws| && Awake(ws2)
  {
    if Asleep in ws {
      var w :| 0 <= w < |ws| && ws[w] == Asleep && ws2 == ws[w := Roused];
      assert ws2[w] != Asleep;
    } else {
      assert ws2[0] in ws2;
    }
  }

  lemma StepKeepsInv(max: nat, n: nat, s: State, step: Step, t: State)
    requires 0 < n && Inv(max, n, s) && Next(max, s, step, t)
    ensures Inv(max, n, t)
  {
    match step
    case Submit(_) | Retry =>
      if s.q == [] && t.q != [] { SignalWakes(s.workers, t.workers); }
    case Fetch(w) =>
      if s.q != [] {
        assert t.workers[w] == Running;
        assert s.q == [s.q[0]] + t.q;
      }
    case StrayMain =>
    case StrayWorker(w) => assert t.workers[w] == Roused;
  }

  lemma {:induction false} RunsKeepInv(max: nat, n: nat, ss: seq<State>, steps: seq<Step>)
    requires 0 < n && Run(max, ss, steps) && Inv(max, n, ss[0])
    ensures forall k :: 0 <= k < |ss| ==> Inv(max, n, ss[k])
    decreases |steps|
  {
    if steps != [] {
      var m := |steps| - 1;
      RunsKeepInv(max, n, ss[..m + 1], steps[..m]);
      assert Inv(max, n, ss[..m + 1][m]);
      StepKeepsInv(max, n, ss[m], steps[m], ss[m + 1]);
    }
  }

  /**
   Every run from the start with at least one worker: descriptors come out in the order they went in, none twice and
   none lost; the buffer holds at most `max`; no worker pool is left asleep beside a non-empty buffer; and the main
   thread is blocked only while the buffer is full. So for `max >= 1` not all threads are ever blocked at once.
   */
  lemma BufferIsSafe(max: nat, n: nat, ss: seq<State>, steps: seq<Step>)
    requires 0 < n && Run(max, ss, steps) && Init(n, ss[0])
    ensures forall k :: 0 <= k < |ss| ==>
      var s := ss[k];
      s.put == s.got + s.q && |s.put| - |s.got| <= max &&
      (s.q != [] ==> Awake(s.workers)) &&
      (s.main.Blocked? ==> |s.q| == max) &&
      (max >= 1 ==> !s.main.Blocked? || Awake(s.workers))
  {
    RunsKeepInv(max, n, ss, steps);
  }

  // ---- nothing submitted is lost

  /** The descriptors with which server_request was called, in that order. */
  function Submitted(steps: seq<Step>): seq<int>
  {
    if steps == [] then []
    else Submitted(steps[..|steps| - 1]) + if steps[|steps| - 1].Submit? then [steps[|steps| - 1].fd] else []
  }

  /** The descriptor that the main thread waits with. */
  function Pending(p: Producer): seq<int>
  {
    match p
    case Free => []
    case Blocked(fd) => [fd]
    case Woken(fd) => [fd]
  }

  lemma SubmittedStep(max: nat, n: nat, s: State, step: Step, t: State)
    requires 0 < n && Inv(max, n, s) && Next(max, s, step, t)
    ensures t.got + t.q + Pending(t.main) == s.got + s.q + Pending(s.main) + if step.Submit? then [step.fd] else []
  {
    match step
    case Fetch(w) =>
      if s.q != [] { assert s.q == [s.q[0]] + t.q; }
    case _ =>
  }

  /**
   In every run what was submitted is, in that order, what has been handed to workers, then what the buffer holds, then
   what the main thread waits with: nothing is lost, added, doubled or overtaken.
   */
  lemma {:induction false} NothingIsLost(max: nat, n: nat, ss: seq<State>, steps: seq<Step>)
    requires 0 < n && Run(max, ss, steps) && Init(n, ss[0])
    ensures var s := ss[|steps|]; Submitted(steps) == s.got + s.q + Pending(s.main)
    decreases |steps|
  {
    if steps != [] {
      var m := |steps| - 1;
      NothingIsLost(max, n, ss[..m + 1], steps[..m]);
      RunsKeepInv(max, n, ss, steps);
      SubmittedStep(max, n, ss[m], steps[m], ss[m + 1]);
    }
  }

  /**
   server_request with a descriptor, or the test of the buffer after a wait with one: on a full buffer the main thread
   waits with it and nothing else happens; otherwise it is the last in the buffer, and a worker that waits is woken if
   the buffer was empty.
   */
  lemma SubmitOutcome(max: nat, n: nat, s: State, step: Step, t: State, fd: int)
    requires 0 < n && Inv(max, n, s) && Next(max, s, step, t) && (step == Submit(fd) || (step == Retry && s.main == Woken(fd)))
    ensures |s.q| == max ==> t.main == Blocked(fd) && t.q == s.q && t.got == s.got && t.workers == s.workers
    ensures |s.q| < max ==> t.main == Free && t.q == s.q + [fd] && t.got == s.got && |t.workers| == |s.workers|
    ensures |s.q| < max && s.q != [] ==> t.workers == s.workers
    ensures s.q == [] && 0 < max && Asleep in s.workers ==>
              exists w :: 0 <= w < n && s.workers[w] == Asleep && t.workers == s.workers[w := Roused]
  {
  }

  /**
   The test of a worker: on an empty buffer it waits and nothing else happens; otherwise it gets the oldest descriptor,
   and a main thread that waits is woken if the buffer was full.
   */
  lemma FetchOutcome(max: nat, n: nat, s: State, w: nat, t: State)
    requires 0 < n && Inv(max, n, s) && Next(max, s, Fetch(w), t)
    ensures w < |s.workers|
    ensures s.q == [] ==> t.workers == s.workers[w := Asleep] && t.main == s.main && t.q == [] && t.got == s.got
    ensures s.q != [] ==>
              && t.workers == s.workers[w := Running] && t.q == s.q[1..] && t.got == s.got + [s.q[0]]
              && t.main == match s.main case Blocked(fd) => Woken(fd) case _ => s.main
  {
  }

  /** Whoever is not blocked in a wait can go on, and nobody else. */
  lemma StepExistsIff(max: nat, n: nat, s: State, step: Step)
    requires 0 < n && Inv(max, n, s)
    ensures (exists t :: Next(max, s, step, t)) <==>
            match step
            case Submit(_) => s.main == Free
            case Retry => s.main.Woken?
            case Fetch(w) => w < n && s.workers[w] != Asleep
            case StrayMain => s.main.Blocked?
            case StrayWorker(w) => w < n && s.workers[w] == Asleep
  {
    match step
    case Submit(fd) => if s.main == Free { PutExists(max, n, s, fd, step); }
    case Retry => if s.main.Woken? { PutExists(max, n, s, s.main.fd, step); }
    case Fetch(w) =>
      if w < n && s.workers[w] != Asleep {
        if s.q == [] {
          var t := s.(workers := s.workers[w := Asleep]);
          assert GetStep(s.q, max, MustWaitEmpty, t.q);
          assert Next(max, s, step, t);
        } else {
          var signal := |s.q| == max;
          var t := s.(q := s.q[1..], got := s.got + [s.q[0]], workers := s.workers[w := Running],
                      main := if signal then SignalMain(s.main) else s.main);
          assert GetStep(s.q, max, Got(s.q[0], signal), t.q);
          assert Next(max, s, step, t);
        }
      }
    case StrayMain => if s.main.Blocked? { assert Next(max, s, step, s.(main := SignalMain(s.main))); }
    case StrayWorker(w) =>
      if w < n && s.workers[w] == Asleep { assert Next(max, s, step, s.(workers := s.workers[w := Roused])); }
  }

  lemma PutExists(max: nat, n: nat, s: State, fd: int, step: Step)
    requires 0 < n && Inv(max, n, s)
    requires (step == Submit(fd) && s.main == Free) || (step == Retry && s.main == Woken(fd))
    ensures exists t :: Next(max, s, step, t)
  {
    if |s.q| == max {
      var t := s.(main := Blocked(fd));
      assert PutStep(s.q, max, fd, MustWaitFull, t.q);
      assert Next(max, s, step, t);
    } else {
      var ws := s.workers;
      if s.q == [] && Asleep in ws {
        var w :| 0 <= w < |ws| && ws[w] == Asleep;
        ws := ws[w := Roused];
      }
      var t := s.(main := Free, q := s.q + [fd], put := s.put + [fd], workers := ws);
      assert PutStep(s.q, max, fd, Put(s.q == []), t.q);
      assert s.q == [] ==> Signalled(s.workers, t.workers);
      assert Next(max, s, step, t);
    }
  }

  /** The number of steps of a run in which a worker tests the buffer. */
  function Fetches(steps: seq<Step>): nat
  {
    if steps == [] then 0
    else Fetches(steps[..|steps| - 1]) + if steps[|steps| - 1].Fetch? then 1 else 0
  }

  /** What a run has taken out and still holds begins with what it had taken out and held before. */
  lemma StepExtends(max: nat, n: nat, s: State, step: Step, t: State)
    requires 0 < n && Inv(max, n, s) && Next(max, s, step, t)
    ensures s.put <= t.put
    ensures |t.got| == |s.got| + if step.Fetch? && s.q != [] then 1 else 0
  {
  }

  /**
   A descriptor at position `p` of the buffer is handed out after p + 1 tests by workers, whatever else happens in
   between and whichever workers test; and until then some worker is not blocked, so the next test can happen.
   */
  lemma {:induction false} DeliveredInTurn(max: nat, n: nat, ss: seq<State>, steps: seq<Step>, p: nat)
    requires 0 < n && Run(max, ss, steps) && Inv(max, n, ss[0]) && p < |ss[0].q|
    ensures var s, t := ss[0], ss[|steps|];
      if Fetches(steps) <= p then |t.got| == |s.got| + Fetches(steps) && Awake(t.workers)
      else |t.got| > |s.got| + p && t.got[|s.got| + p] == s.q[p]
    ensures ss[0].put <= ss[|steps|].put
    decreases |steps|
  {
    if steps != [] {
      var m := |steps| - 1;
      DeliveredInTurn(max, n, ss[..m + 1], steps[..m], p);
      RunsKeepInv(max, n, ss, steps);
      StepExtends(max, n, ss[m], steps[m], ss[m + 1]);
    }
    var s, t := ss[0], ss[|steps|];
    RunsKeepInv(max, n, ss, steps);
    assert s.put[|s.got| + p] == s.q[p];
    if |t.got| > |s.got| + p {
      assert t.got[|s.got| + p] == t.put[|s.got| + p];
    } else {
      assert t.q != [];
    }
  }

  /** A blocked main thread is woken by the very next worker that tests the buffer. */
  lemma BlockedUntilFetch(max: nat, n: nat, s: State, step: Step, t: State)
    requires 0 < n && 0 < max && Inv(max, n, s) && Next(max, s, step, t) && s.main.Blocked?
    ensures step.Fetch? ==> t.main == Woken(s.main.fd) && |t.q| == max - 1
    ensures !step.Fetch? ==> t.q == s.q && t.main in {s.main, Woken(s.main.fd)}
  {
  }

  /** The main thread can hand a descriptor over exactly when the buffer was configured to hold at least one. */
  lemma DeliversIff(max: nat, n: nat, fd: int)
    requires 0 < n
    ensures max >= 1 <==> exists ss: seq<State>, steps ::
        Run(max, ss, steps) && Init(n, ss[0]) && ss[|steps|].got == [fd]
  {
    var ws := seq(n, _ => Running);
    if max >= 1 {
      var s := State([], Free, ws, [], []);
      var t := State([fd], Free, ws, [fd], []);
      var u := State([], Free, ws, [fd], [fd]);
      assert Next(max, s, Submit(fd), t) by {
        assert PutStep(s.q, max, fd, Put(true), t.q);
        assert Signalled(ws, ws);
      }
      assert Next(max, t, Fetch(0), u) by {
        assert GetStep(t.q, max, Got(fd, |t.q| == max), u.q);
        assert u.workers == t.workers[0 := Running];
      }
      assert Run(max, [s, t, u], [Submit(fd), Fetch(0)]);
    } else {
      forall ss: seq<State>, steps | Run(max, ss, steps) && Init(n, ss[0])
        ensures ss[|steps|].put == []
      {
        NothingPut(n, ss, steps);
      }
      forall ss: seq<State>, steps | Run(max, ss, steps) && Init(n, ss[0])
        ensures ss[|steps|].got != [fd]
      {
        RunsKeepInv(max, n, ss, steps);
      }
    }
  }

  lemma {:induction false} NothingPut(n: nat, ss: seq<State>, steps: seq<Step>)
    requires 0 < n && Run(0, ss, steps) && Init(n, ss[0])
    ensures ss[|steps|].put == []
    decreases |steps|
  {
    if steps != [] {
      var m := |steps| - 1;
      NothingPut(n, ss[..m + 1], steps[..m]);
      RunsKeepInv(0, n, ss, steps);
    }
  }
}
