// The thread pool of epoll/threadpool.h as a protocol: any number of appenders
// and workers share a queue behind a mutex and a counting semaphore, and every
// lock, unlock, wait, post, test, push and pop is a step of its own.
module ThreadPool {
  import opened Options

  // A request is a pointer and may be null.
  type Request = Option<int>

  // Where a thread stands in append (lines 73-82).
  datatype Appender =
    | Outside
    | Asking(request: Request)    // called, mutex not yet taken
    | Inside(request: Request)    // holds the mutex, size not yet tested
    | Allowed(request: Request)   // holds the mutex, there is room
    | Refused                     // holds the mutex, there is none
    | Pushed                      // holds the mutex, request is in the queue
    | Unposted                    // mutex released, semaphore not yet posted

  // Where a thread stands in run (lines 96-113).  A request taken from the
  // queue is named by its number in the order of taking.
  datatype Worker =
    | Testing                     // before the test of m_stop
    | Waiting                     // before the wait on the semaphore
    | Woken                       // past the wait, mutex not yet taken
    | Looking                     // holds the mutex, empty() not yet tested
    | NothingThere                // holds the mutex, the queue was empty
    | SomethingThere              // holds the mutex, the queue was not empty
    | Took(number: nat)           // holds the mutex, request is out of the queue
    | Working(number: nat)        // mutex released
    | Gone

  datatype Owner = Nobody | ByAppender(a: int) | ByWorker(w: int)

  datatype Pool = Pool(
    maxRequests: nat, queue: seq<Request>, sem: nat, mutex: Owner, stop: bool,
    appenders: map<int, Appender>, workers: map<int, Worker>,
    accepted: seq<Request>,       // every request pushed, in order
    taken: seq<Request>,          // every request popped, in order
    done: set<nat>)               // the numbers of those that are finished

  datatype Step =
    | Call(a: int, request: Request) | LockA(a: int) | TestSize(a: int) | Push(a: int) | UnlockA(a: int) | Post(a: int)
    | TestStop(w: int) | Wait(w: int) | LockW(w: int) | TestEmpty(w: int) | Pop(w: int) | UnlockW(w: int)
    | Process(w: int)
    | SetStop

  ghost predicate InitState(s: Pool) {
    && s.queue == [] && s.sem == 0 && s.mutex.Nobody? && !s.stop && s.accepted == [] && s.taken == [] && s.done == {}
    && (forall a :: a in s.appenders ==> s.appenders[a].Outside?)
    && (forall w :: w in s.workers ==> s.workers[w].Testing?)
  }

  predicate CanStep(s: Pool, step: Step) {
    match step
    case Call(a, _) => a in s.appenders && s.appenders[a].Outside?
    case LockA(a) => a in s.appenders && s.appenders[a].Asking? && s.mutex.Nobody?
    case TestSize(a) => a in s.appenders && s.appenders[a].Inside?
    case Push(a) => a in s.appenders && s.appenders[a].Allowed?
    case UnlockA(a) => a in s.appenders && (s.appenders[a].Refused? || s.appenders[a].Pushed?)
    case Post(a) => a in s.appenders && s.appenders[a].Unposted?
    case TestStop(w) => w in s.workers && s.workers[w].Testing?
    case Wait(w) => w in s.workers && s.workers[w].Waiting? && s.sem > 0
    case LockW(w) => w in s.workers && s.workers[w].Woken? && s.mutex.Nobody?
    case TestEmpty(w) => w in s.workers && s.workers[w].Looking?
    case Pop(w) => w in s.workers && s.workers[w].SomethingThere?
    case UnlockW(w) => w in s.workers && (s.workers[w].NothingThere? || s.workers[w].Took?)
    case Process(w) => w in s.workers && s.workers[w].Working?
    case SetStop => true
  }

  function DoStep(s: Pool, step: Step): Pool
    requires CanStep(s, step)
  {
    match step
    case Call(a, r) => s.(appenders := s.appenders[a := Asking(r)])
    case LockA(a) => s.(appenders := s.appenders[a := Inside(s.appenders[a].request)], mutex := ByAppender(a))
    case TestSize(a) =>
      s.(appenders := s.appenders[a := if |s.queue| > s.maxRequests then Refused else Allowed(s.appenders[a].request)])
    case Push(a) =>
      var r := s.appenders[a].request;
      s.(appenders := s.appenders[a := Pushed], queue := s.queue + [r], accepted := s.accepted + [r])
    case UnlockA(a) =>
      s.(appenders := s.appenders[a := if s.appenders[a].Pushed? then Unposted else Outside], mutex := Nobody)
    case Post(a) => s.(appenders := s.appenders[a := Outside], sem := s.sem + 1)
    case TestStop(w) => s.(workers := s.workers[w := if s.stop then Gone else Waiting])
    case Wait(w) => s.(workers := s.workers[w := Woken], sem := s.sem - 1)
    case LockW(w) => s.(workers := s.workers[w := Looking], mutex := ByWorker(w))
    case TestEmpty(w) => s.(workers := s.workers[w := if s.queue == [] then NothingThere else SomethingThere])
    case Pop(w) =>
      if s.queue == [] then s   // pop_front on an empty list; never met, as proved below
      else s.(workers := s.workers[w := Took(|s.taken|)], taken := s.taken + [s.queue[0]], queue := s.queue[1..])
    case UnlockW(w) =>
      var next := if s.workers[w].Took? then Working(s.workers[w].number) else Testing;
      s.(workers := s.workers[w := next], mutex := Nobody)
    case Process(w) =>
      s.(workers := s.workers[w := Testing], done := s.done + {s.workers[w].number})
    case SetStop => s.(stop := true)
  }

  // ---------- the invariant ----------

  predicate HoldsA(a: Appender) {
    a.Inside? || a.Allowed? || a.Refused? || a.Pushed?
  }

  predicate HoldsW(w: Worker) {
    w.Looking? || w.NothingThere? || w.SomethingThere? || w.Took?
  }

  // pushed, and the post is still to come
  ghost function Owing(s: Pool): set<int> {
    set a | a in s.appenders && (s.appenders[a].Pushed? || s.appenders[a].Unposted?)
  }

  // past the wait, and the pop is still to come
  ghost function Claiming(s: Pool): set<int> {
    set w | w in s.workers && (s.workers[w].Woken? || s.workers[w].Looking? || s.workers[w].SomethingThere?)
  }

  predicate InHand(w: Worker) {
    w.Took? || w.Working?
  }

  ghost predicate MutualExclusion(s: Pool) {
    && (forall a :: a in s.appenders ==> (HoldsA(s.appenders[a]) <==> s.mutex == ByAppender(a)))
    && (forall w :: w in s.workers ==> (HoldsW(s.workers[w]) <==> s.mutex == ByWorker(w)))
    && (s.mutex.ByAppender? ==> s.mutex.a in s.appenders) && (s.mutex.ByWorker? ==> s.mutex.w in s.workers)
  }

  ghost predicate Counting(s: Pool) {
    |s.queue| == s.sem + |Claiming(s)| + |Owing(s)|
  }

  ghost predicate Bounded(s: Pool) {
    && |s.queue| <= s.maxRequests + 1
    && (forall a :: a in s.appenders && s.appenders[a].Allowed? ==> |s.queue| <= s.maxRequests)
  }

  ghost predicate NeverEmpty(s: Pool) {
    && (forall w :: w in s.workers ==> !s.workers[w].NothingThere?)
    && (forall w :: w in s.workers && s.workers[w].SomethingThere? ==> s.queue != [])
  }

  // append refuses a request only if the queue holds more than max_requests.
  ghost predicate RefusedWhenFull(s: Pool) {
    forall a :: a in s.appenders && s.appenders[a].Refused? ==> |s.queue| == s.maxRequests + 1
  }

  // A worker leaves only after m_stop has been set.
  ghost predicate GoneAfterStop(s: Pool) {
    forall w :: w in s.workers && s.workers[w].Gone? ==> s.stop
  }

  ghost predicate InOrder(s: Pool) {
    s.accepted == s.taken + s.queue
  }

  // Every request taken is finished or in the hands of exactly one worker.
  ghost predicate OneHand(s: Pool) {
    && (forall w :: w in s.workers && InHand(s.workers[w]) ==>
      s.workers[w].number < |s.taken| && s.workers[w].number !in s.done)
    && (forall v, w :: v in s.workers && w in s.workers && InHand(s.workers[v]) && InHand(s.workers[w]) && v != w ==>
      s.workers[v].number != s.workers[w].number)
    && (forall i :: i in s.done ==> i < |s.taken|)
    && (forall i {:trigger i in s.done} :: 0 <= i < |s.taken| && i !in s.done ==>
      exists w :: w in s.workers && InHand(s.workers[w]) && s.workers[w].number == i)
  }

  ghost predicate Inv(s: Pool) {
    && MutualExclusion(s) && Counting(s) && Bounded(s) && NeverEmpty(s) && InOrder(s) && OneHand(s)
    && RefusedWhenFull(s) && GoneAfterStop(s)
  }

  // ---------- every step keeps it ----------

  lemma ExclusionKept(s: Pool, step: Step)
    requires MutualExclusion(s) && CanStep(s, step)
    ensures MutualExclusion(DoStep(s, step))
  {
  }

  // A worker that is about to pop is among those counted.
  lemma ClaimsAreCovered(s: Pool, w: int)
    requires Counting(s) && w in Claiming(s)
    ensures s.queue != []
  {
    assert |Claiming(s)| >= 1 by {
      assert Claiming(s) == (Claiming(s) - {w}) + {w};
    }
  }

  // How a step changes the two sets that are counted.
  lemma OwingKept(s: Pool, step: Step)
    requires CanStep(s, step)
    ensures var t := DoStep(s, step);
      if step.Push? then Owing(t) == Owing(s) + {step.a} && step.a !in Owing(s)
      else if step.Post? then Owing(s) == Owing(t) + {step.a} && step.a !in Owing(t)
      else Owing(t) == Owing(s)
  {
  }

  lemma ClaimingKept(s: Pool, step: Step)
    requires CanStep(s, step) && (step.TestEmpty? || step.Pop? ==> s.queue != [])
    requires step.UnlockW? ==> !s.workers[step.w].NothingThere?
    ensures var t := DoStep(s, step);
      if step.Wait? then Claiming(t) == Claiming(s) + {step.w} && step.w !in Claiming(s)
      else if step.Pop? then Claiming(s) == Claiming(t) + {step.w} && step.w !in Claiming(t)
      else Claiming(t) == Claiming(s)
  {
  }

  lemma CountingKept(s: Pool, step: Step)
    requires Inv(s) && CanStep(s, step)
    ensures Counting(DoStep(s, step))
  {
    if step.TestEmpty? {
      ClaimsAreCovered(s, step.w);
    }
    OwingKept(s, step);
    ClaimingKept(s, step);
    hide Owing, Claiming;
  }

  lemma QueueKept(s: Pool, step: Step)
    requires Inv(s) && CanStep(s, step)
    ensures var t := DoStep(s, step); Bounded(t) && NeverEmpty(t) && InOrder(t)
  {
    if step.TestEmpty? {
      ClaimsAreCovered(s, step.w);
    }
  }

  lemma AnswersKept(s: Pool, step: Step)
    requires Inv(s) && CanStep(s, step)
    ensures RefusedWhenFull(DoStep(s, step)) && GoneAfterStop(DoStep(s, step))
  {
  }

  // Nobody drops a request: step by step it stays with its worker or is done.
  lemma HandKept(s: Pool, step: Step, i: nat)
    requires OneHand(s) && CanStep(s, step) && (step.Pop? ==> s.queue != [])
    requires i < |DoStep(s, step).taken| && i !in DoStep(s, step).done
    ensures var t := DoStep(s, step); exists w :: w in t.workers && InHand(t.workers[w]) && t.workers[w].number == i
  {
    var t := DoStep(s, step);
    if i < |s.taken| {
      assert i !in s.done;
      var w :| w in s.workers && InHand(s.workers[w]) && s.workers[w].number == i;
      assert w in t.workers && InHand(t.workers[w]) && t.workers[w].number == i;
    } else {
      assert InHand(t.workers[step.w]) && t.workers[step.w].number == i;
    }
  }

  lemma HandsKept(s: Pool, step: Step)
    requires Inv(s) && CanStep(s, step)
    ensures OneHand(DoStep(s, step))
  {
    var t := DoStep(s, step);
    forall i | 0 <= i < |t.taken| && i !in t.done
      ensures exists w :: w in t.workers && InHand(t.workers[w]) && t.workers[w].number == i
    {
      HandKept(s, step, i);
    }
  }

  lemma StepKeepsInv(s: Pool, step: Step)
    requires Inv(s) && CanStep(s, step)
    ensures Inv(DoStep(s, step))
  {
    ExclusionKept(s, step);
    CountingKept(s, step);
    QueueKept(s, step);
    AnswersKept(s, step);
    HandsKept(s, step);
  }

  // ---------- over whole runs ----------

  // the states of a run, one step after the other
  ghost predicate IsRun(run: seq<Pool>, steps: seq<Step>) {
    && |run| == |steps| + 1 && InitState(run[0])
    && forall i :: 0 <= i < |steps| ==> CanStep(run[i], steps[i]) && run[i + 1] == DoStep(run[i], steps[i])
  }

  lemma {:induction false} RunsKeepInv(run: seq<Pool>, steps: seq<Step>, i: nat)
    requires IsRun(run, steps) && i < |run|
    ensures Inv(run[i])
  {
    if i == 0 {
      NobodyCounted(run[0]);
    } else {
      RunsKeepInv(run, steps, i - 1);
      StepKeepsInv(run[i - 1], steps[i - 1]);
    }
  }

  // In every interleaving: no worker ever finds the queue empty, it never holds
  // more than one request above the limit, and requests are taken in the order
  // in which they were accepted.  A request is refused only when the queue is
  // full, and a worker leaves only after m_stop.
  lemma RunsAreSafe(run: seq<Pool>, steps: seq<Step>, i: nat)
    requires IsRun(run, steps) && i < |run|
    ensures forall w :: w in run[i].workers ==> !run[i].workers[w].NothingThere?
    ensures |run[i].queue| <= run[i].maxRequests + 1
    ensures run[i].taken <= run[i].accepted
    ensures forall a :: a in run[i].appenders && run[i].appenders[a].Refused? ==>
      |run[i].queue| == run[i].maxRequests + 1
    ensures forall w :: w in run[i].workers && run[i].workers[w].Gone? ==> run[i].stop
  {
    RunsKeepInv(run, steps, i);
  }

  lemma NobodyCounted(s: Pool)
    requires forall a :: a in s.appenders ==> !s.appenders[a].Pushed? && !s.appenders[a].Unposted?
    requires forall w :: w in s.workers ==> s.workers[w].Testing? || s.workers[w].Waiting? || s.workers[w].Gone?
    ensures Owing(s) == {} && Claiming(s) == {}
  {
    HasNoElement(Owing(s));
    HasNoElement(Claiming(s));
  }

  lemma HasNoElement(x: set<int>)
    requires forall e :: e !in x
    ensures x == {}
  {
    assert forall e :: e in x <==> e in {};
  }

  // No thread is in the middle of a call or at work.  A worker waits, or has left
  // because of m_stop.
  ghost predicate AtRest(s: Pool) {
    && (forall a :: a in s.appenders ==> s.appenders[a].Outside? || s.appenders[a].Asking?)
    && (forall w :: w in s.workers ==> s.workers[w].Waiting? || s.workers[w].Gone?)
  }

  // At rest, the value of the semaphore is the number of accepted requests that
  // nobody has taken, and all the others are finished.  So every accepted
  // request is finished if and only if the semaphore is at zero; and as long as
  // it is not, a worker that waits can go on.
  lemma NothingIsForgotten(run: seq<Pool>, steps: seq<Step>, i: nat)
    requires IsRun(run, steps) && i < |run| && AtRest(run[i])
    ensures |run[i].accepted| == |run[i].taken| + run[i].sem && run[i].taken <= run[i].accepted
    ensures forall n :: 0 <= n < |run[i].taken| ==> n in run[i].done
    ensures (forall n :: 0 <= n < |run[i].accepted| ==> n in run[i].done) <==> run[i].sem == 0
    ensures forall w :: w in run[i].workers && run[i].workers[w].Waiting? && run[i].sem > 0 ==> CanStep(run[i], Wait(w))
  {
    RunsKeepInv(run, steps, i);
    NobodyCounted(run[i]);
    if run[i].sem > 0 {
      assert |run[i].taken| !in run[i].done;
    }
  }

  // A step more.
  lemma Goes(run: seq<Pool>, steps: seq<Step>, step: Step) returns (run1: seq<Pool>, steps1: seq<Step>)
    requires IsRun(run, steps) && CanStep(run[|steps|], step)
    ensures IsRun(run1, steps1) && run1[|steps1|] == DoStep(run[|steps|], step)
  {
    run1, steps1 := run + [DoStep(run[|steps|], step)], steps + [step];
  }

  // While no worker runs, the first max_requests + 1 requests are accepted ...
  lemma {:induction false} AcceptsUpToTheLimit(s: Pool, a: int, requests: seq<Request>)
    returns (run: seq<Pool>, steps: seq<Step>)
    requires InitState(s) && a in s.appenders && |requests| <= s.maxRequests + 1
    ensures IsRun(run, steps)
    ensures run[|steps|] == s.(queue := requests, accepted := requests, sem := |requests|)
    decreases |requests|
  {
    hide IsRun;
    if requests == [] {
      run, steps := [s], [];
      StartsAt(s);
    } else {
      var last := |requests| - 1;
      run, steps := AcceptsUpToTheLimit(s, a, requests[..last]);
      run, steps := Goes(run, steps, Call(a, requests[last]));
      run, steps := Goes(run, steps, LockA(a));
      run, steps := Goes(run, steps, TestSize(a));
      run, steps := Goes(run, steps, Push(a));
      run, steps := Goes(run, steps, UnlockA(a));
      run, steps := Goes(run, steps, Post(a));
      assert requests[..last] + [requests[last]] == requests;
      assert s.appenders[a := Outside] == s.appenders;
    }
  }

  // ... and the next one is refused.
  lemma RefusesBeyondTheLimit(s: Pool, a: int, requests: seq<Request>, request: Request)
    returns (run: seq<Pool>, steps: seq<Step>)
    requires InitState(s) && a in s.appenders && |requests| == s.maxRequests + 1
    ensures IsRun(run, steps) && a in run[|steps|].appenders && run[|steps|].appenders[a].Refused?
    ensures run[|steps|].accepted == requests
  {
    hide IsRun;
    run, steps := AcceptsUpToTheLimit(s, a, requests);
    run, steps := Goes(run, steps, Call(a, request));
    run, steps := Goes(run, steps, LockA(a));
    run, steps := Goes(run, steps, TestSize(a));
  }

  // An example: a request is accepted, and then the only worker finds m_stop set.
  // The request stays in the queue, and nobody is left to take it.
  lemma StoppedPoolForgets(s: Pool, a: int, w: int, request: Request) returns (run: seq<Pool>, steps: seq<Step>)
    requires InitState(s) && a in s.appenders && s.workers == map[w := Testing]
    ensures IsRun(run, steps) && AtRest(run[|steps|])
    ensures run[|steps|].accepted == [request] && run[|steps|].taken == [] && run[|steps|].workers == map[w := Gone]
  {
    hide IsRun;
    run, steps := [s], [];
    assert IsRun(run, steps) by {
      StartsAt(s);
    }
    run, steps := Goes(run, steps, Call(a, request));
    run, steps := Goes(run, steps, LockA(a));
    run, steps := Goes(run, steps, TestSize(a));
    run, steps := Goes(run, steps, Push(a));
    run, steps := Goes(run, steps, UnlockA(a));
    run, steps := Goes(run, steps, Post(a));
    run, steps := Goes(run, steps, SetStop);
    run, steps := Goes(run, steps, TestStop(w));
  }

  lemma StartsAt(s: Pool)
    requires InitState(s)
    ensures IsRun([s], [])
  {
  }

  // The pool cannot get stuck: while a request is queued and some worker has
  // not left, a thread can move on without a new call from outside.
  lemma SomeThreadCanMove(s: Pool, w: int) returns (step: Step)
    requires Inv(s) && s.queue != [] && w in s.workers && !s.workers[w].Gone?
    ensures CanStep(s, step) && !step.Call? && !step.SetStop?
  {
    match s.mutex
    case ByAppender(a) =>
      step := match s.appenders[a]
        case Inside(_) => TestSize(a)
        case Allowed(_) => Push(a)
        case _ => UnlockA(a);
    case ByWorker(v) =>
      step := match s.workers[v]
        case Looking => TestEmpty(v)
        case SomethingThere => Pop(v)
        case _ => UnlockW(v);
    case Nobody =>
      match s.workers[w] {
        case Testing => step := TestStop(w);
        case Woken => step := LockW(w);
        case Working(_) => step := Process(w);
        case _ =>
          if s.sem > 0 {
            step := Wait(w);
          } else if a :| a in Owing(s) {
            step := Post(a);
          } else {
            HasNoElement(Owing(s));
            var v := AnyElement(Claiming(s));
            step := LockW(v);
          }
      }
  }

  lemma AnyElement(x: set<int>) returns (e: int)
    requires |x| > 0
    ensures e in x
  {
    if d :| d in x {
      e := d;
    } else {
      HasNoElement(x);
    }
  }
}
