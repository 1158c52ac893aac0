// The asynchronous log of log/log.cpp and log/log.h: logging threads that put
// lines into the queue or, when it is full, into the file, and one writer
// thread that moves lines from the queue to the file.  Lines are named by the
// order in which they were formatted.
module Log {
  import opened Options
  import opened QueueSpec
  import Runs

  // Where a logging thread stands in write_log, behind the formatting.
  datatype Logger =
    | Ready
    | HasLine(line: nat)    // before the test of full()
    | WillPush(line: nat)   // the queue was not full
    | WillWrite(line: nat)  // not asynchronous, or the queue was full

  datatype State = State(
    isAsync: bool, loggers: map<int, Logger>,
    queue: Queue<nat>, hand: Option<nat>, file: seq<nat>,
    formatted: nat,   // how many lines there have been
    lost: set<nat>)   // lines whose push failed

  datatype Step =
    | Format(l: int)        // lines 130-142, under the mutex
    | TestFull(l: int)      // line 144
    | PushLine(l: int)      // line 146; the result of push is not looked at
    | WriteDirect(l: int)   // lines 150-152, under the mutex
    | WriterPop             // log.h:41
    | WriterWrite           // log.h:43-45, under the mutex

  predicate CanStep(s: State, step: Step) {
    match step
    case Format(l) => l in s.loggers && s.loggers[l].Ready?
    case TestFull(l) => l in s.loggers && s.loggers[l].HasLine?
    case PushLine(l) => l in s.loggers && s.loggers[l].WillPush?
    case WriteDirect(l) => l in s.loggers && s.loggers[l].WillWrite?
    case WriterPop => s.hand.None? && s.queue.items != []
    case WriterWrite => s.hand.Some?
  }

  function DoStep(s: State, step: Step): State
    requires CanStep(s, step)
  {
    match step
    case Format(l) => s.(loggers := s.loggers[l := HasLine(s.formatted)], formatted := s.formatted + 1)
    case TestFull(l) =>
      var n := s.loggers[l].line;
      var full := |s.queue.items| >= s.queue.capacity;
      s.(loggers := s.loggers[l := if s.isAsync && !full then WillPush(n) else WillWrite(n)])
    case PushLine(l) =>
      var n := s.loggers[l].line;
      var (queue, ok) := s.queue.Push(n);
      s.(loggers := s.loggers[l := Ready], queue := queue, lost := if ok then s.lost else s.lost + {n})
    case WriteDirect(l) => s.(loggers := s.loggers[l := Ready], file := s.file + [s.loggers[l].line])
    case WriterPop =>
      var (queue, line) := s.queue.Take();
      s.(hand := Some(line), queue := queue)
    case WriterWrite => s.(hand := None, file := s.file + [s.hand.value])
  }

  ghost predicate InitState(s: State) {
    && s.queue.items == [] && s.file == [] && s.hand.None? && s.formatted == 0 && s.lost == {}
    && forall l :: l in s.loggers ==> s.loggers[l].Ready?
  }

  function Next(s: State, step: Step): Option<State> {
    if CanStep(s, step) then Some(DoStep(s, step)) else None
  }

  function Exec(s: State, steps: seq<Step>): Option<State> {
    Runs.Exec(Next, s, steps)
  }

  // ---------- every line is in exactly one place ----------

  ghost function Holders(s: State, n: nat): set<int> {
    set l | l in s.loggers && !s.loggers[l].Ready? && s.loggers[l].line == n
  }

  // How many places line n is in.
  ghost function Places(s: State, n: nat): nat {
    |Holders(s, n)| + multiset(s.queue.items)[n] + (if s.hand == Some(n) then 1 else 0) + multiset(s.file)[n]
    + (if n in s.lost then 1 else 0)
  }

  ghost predicate Conserved(s: State) {
    forall n: nat :: Places(s, n) == if n < s.formatted then 1 else 0
  }

  lemma HoldersChange(s: State, step: Step, n: nat)
    requires CanStep(s, step)
    ensures var t := DoStep(s, step);
      if step.Format? && n == s.formatted then Holders(t, n) == Holders(s, n) + {step.l} && step.l !in Holders(s, n)
      else if (step.PushLine? || step.WriteDirect?) && n == s.loggers[step.l].line then
        Holders(s, n) == Holders(t, n) + {step.l} && step.l !in Holders(t, n)
      else Holders(t, n) == Holders(s, n)
  {
  }

  lemma PlacesChange(s: State, step: Step, n: nat)
    requires CanStep(s, step) && Conserved(s)
    ensures Places(DoStep(s, step), n) == Places(s, n) + if step.Format? && n == s.formatted then 1 else 0
  {
    HoldersChange(s, step, n);
    hide Holders;
    assert Places(s, n) <= 1;
    if step.WriterPop? {
      assert s.queue.items == [s.queue.items[0]] + s.queue.items[1..];
    }
  }

  lemma ConservedKept(s: State, step: Step)
    requires CanStep(s, step) && Conserved(s)
    ensures Conserved(DoStep(s, step))
  {
    forall n: nat ensures Places(DoStep(s, step), n) == if n < DoStep(s, step).formatted then 1 else 0 {
      PlacesChange(s, step, n);
    }
  }

  // However many threads log, in every interleaving each formatted line is in
  // exactly one place: with its logger, in the queue, in the writer's hand, in
  // the file, or lost.
  lemma {:induction false} RunsConserve(s: State, steps: seq<Step>)
    requires InitState(s) && Exec(s, steps).Some?
    ensures Conserved(Exec(s, steps).value) && Exec(s, steps).value.loggers.Keys == s.loggers.Keys
    ensures Exec(s, steps).value.queue.capacity == s.queue.capacity && Exec(s, steps).value.isAsync == s.isAsync
    decreases |steps|
  {
    if steps == [] {
      forall n: nat ensures Places(s, n) == 0 {
        assert forall l :: l in Holders(s, n) <==> l in {};
      }
    } else {
      RunsConserve(s, steps[..|steps| - 1]);
      ConservedKept(Exec(s, steps[..|steps| - 1]).value, steps[|steps| - 1]);
    }
  }

  // ---------- when lines get lost ----------

  predicate AtMostOne(s: State) {
    Runs.AtMostOne(s.loggers)
  }

  ghost predicate NobodyLogs(s: State) {
    forall a :: a !in s.loggers
  }

  predicate Unqueued(s: State) {
    !s.isAsync || s.queue.capacity == 0
  }

  // With one logging thread only the writer can run between the test of full()
  // and the push, and it only makes room.
  lemma {:induction false} OneLoggerLosesNothing(s: State, steps: seq<Step>)
    requires InitState(s) && AtMostOne(s) && Exec(s, steps).Some?
    ensures var t := Exec(s, steps).value;
      t.lost == {} && t.queue.capacity == s.queue.capacity && t.loggers.Keys == s.loggers.Keys
      && forall l :: l in t.loggers && t.loggers[l].WillPush? ==> |t.queue.items| < t.queue.capacity
    decreases |steps|
  {
    if steps != [] {
      OneLoggerLosesNothing(s, steps[..|steps| - 1]);
    }
  }

  lemma {:induction false} SyncLosesNothing(s: State, steps: seq<Step>)
    requires InitState(s) && Unqueued(s) && Exec(s, steps).Some?
    ensures var t := Exec(s, steps).value;
      t.lost == {} && t.queue.items == [] && t.hand.None?
      && t.queue.capacity == s.queue.capacity && t.isAsync == s.isAsync
      && forall l :: l in t.loggers ==> !t.loggers[l].WillPush?
    decreases |steps|
  {
    if steps != [] {
      SyncLosesNothing(s, steps[..|steps| - 1]);
    }
  }

  // Thread a logs k lines while the writer does not run.
  lemma {:induction false} Fill(s: State, a: int, k: nat) returns (steps: seq<Step>)
    requires InitState(s) && s.isAsync && a in s.loggers && k <= s.queue.capacity
    ensures Exec(s, steps).Some?
    ensures var t := Exec(s, steps).value;
      && t.loggers == s.loggers && t.queue.capacity == s.queue.capacity && t.isAsync
      && |t.queue.items| == t.formatted == k && t.file == [] && t.lost == {} && t.hand.None?
      && forall i :: 0 <= i < k ==> t.queue.items[i] == i
  {
    Runs.NoSteps(Next, s);
    hide Runs.Exec;
    if k == 0 {
      steps := [];
    } else {
      steps := Fill(s, a, k - 1);
      steps := Runs.Add(Next, s, steps, Format(a));
      steps := Runs.Add(Next, s, steps, TestFull(a));
      steps := Runs.Add(Next, s, steps, PushLine(a));
    }
  }

  // Two threads that both test full() when one place is left: the second push
  // fails, and nobody notices.
  lemma TwoLoggersCanLose(s: State, a: int, b: int) returns (steps: seq<Step>)
    requires InitState(s) && !Unqueued(s) && a in s.loggers && b in s.loggers && a != b
    ensures Exec(s, steps).Some? && Exec(s, steps).value.lost != {}
  {
    hide Runs.Exec;
    steps := Fill(s, a, s.queue.capacity - 1);
    var n := Exec(s, steps).value.formatted;
    steps := Runs.Add(Next, s, steps, Format(a));
    steps := Runs.Add(Next, s, steps, TestFull(a));
    steps := Runs.Add(Next, s, steps, Format(b));
    steps := Runs.Add(Next, s, steps, TestFull(b));
    steps := Runs.Add(Next, s, steps, PushLine(a));
    steps := Runs.Add(Next, s, steps, PushLine(b));
    assert n + 1 in Exec(s, steps).value.lost;
  }

  // So no line can ever get lost if and only if at most one thread logs, or the
  // queue is not used at all.
  lemma NothingLostIffOneLogger(s: State)
    requires InitState(s)
    ensures (forall steps :: Exec(s, steps).Some? ==> Exec(s, steps).value.lost == {})
       <==> AtMostOne(s) || Unqueued(s)
  {
    if AtMostOne(s) || Unqueued(s) {
      forall steps | Exec(s, steps).Some? ensures Exec(s, steps).value.lost == {} {
        if AtMostOne(s) {
          OneLoggerLosesNothing(s, steps);
        } else {
          SyncLosesNothing(s, steps);
        }
      }
    } else {
      var a, b :| a in s.loggers && b in s.loggers && a != b;
      var steps := TwoLoggersCanLose(s, a, b);
      assert Exec(s, steps).Some? && Exec(s, steps).value.lost != {};
    }
  }

  // ---------- the order of the lines in the file ----------

  predicate Ascending(lines: seq<nat>) {
    forall i, j :: 0 <= i < j < |lines| ==> lines[i] < lines[j]
  }

  // What the writer still has to put into the file, in order.
  function Backlog(s: State): seq<nat> {
    (if s.hand.Some? then [s.hand.value] else []) + s.queue.items
  }

  // In some step of the run a line was written directly while older ones were
  // waiting for the writer.
  predicate Overtaken(s: State, steps: seq<Step>)
    decreases |steps|
  {
    steps != [] &&
    var last := |steps| - 1;
    Overtaken(s, steps[..last])
    || (steps[last].WriteDirect? && Exec(s, steps[..last]).Some? && Backlog(Exec(s, steps[..last]).value) != [])
  }

  // One thread: the line in its hand is newer than all the others.
  ghost predicate NewestInHand(s: State) {
    && (forall n :: n in s.file + Backlog(s) ==> n < s.formatted)
    && (forall l, n :: l in s.loggers && !s.loggers[l].Ready? && n in s.file + Backlog(s) ==> n < s.loggers[l].line)
    && (forall l :: l in s.loggers && !s.loggers[l].Ready? ==> s.loggers[l].line < s.formatted)
  }

  lemma InsertedLine(front: seq<nat>, n: nat, back: seq<nat>)
    requires forall m :: m in front + back ==> m < n
    ensures Ascending(front + [n] + back) <==> Ascending(front + back) && back == []
  {
    var before, after := front + back, front + [n] + back;
    if back != [] {
      assert back[0] in before && after[|front|] == n && after[|front| + 1] == back[0];
    } else {
      assert before == front && after == front + [n];
      forall i, j | 0 <= i < j < |after| && Ascending(front) ensures after[i] < after[j] {
        if j == |front| {
          assert front[i] in before;
        }
      }
      forall i, j | 0 <= i < j < |front| && Ascending(after) ensures front[i] < front[j] {
        assert after[i] < after[j];
      }
    }
  }

  // How a step changes the lines that are written or waiting.
  lemma LinesChange(s: State, step: Step)
    requires CanStep(s, step) && (step.PushLine? ==> |s.queue.items| < s.queue.capacity)
    ensures var t := DoStep(s, step);
      t.file + Backlog(t) ==
        if step.PushLine? then s.file + Backlog(s) + [s.loggers[step.l].line] + []
        else if step.WriteDirect? then s.file + [s.loggers[step.l].line] + Backlog(s)
        else s.file + Backlog(s)
  {
  }

  lemma NewestKept(s: State, step: Step)
    requires AtMostOne(s) && NewestInHand(s) && CanStep(s, step)
    requires step.PushLine? ==> |s.queue.items| < s.queue.capacity
    ensures NewestInHand(DoStep(s, step))
  {
    hide Backlog;
    LinesChange(s, step);
    var t := DoStep(s, step);
    forall n | n in t.file + Backlog(t)
      ensures n in s.file + Backlog(s) || ((step.PushLine? || step.WriteDirect?) && n == s.loggers[step.l].line)
    {
    }
  }

  // One thread: the lines that are written or waiting are in the order in which
  // they were formatted if and only if none has overtaken another.
  lemma {:induction false} OrderedIffNotOvertaken(s: State, steps: seq<Step>)
    requires InitState(s) && AtMostOne(s) && Exec(s, steps).Some?
    ensures var t := Exec(s, steps).value;
      NewestInHand(t) && AtMostOne(t) && (Ascending(t.file + Backlog(t)) <==> !Overtaken(s, steps))
    decreases |steps|
  {
    if steps != [] {
      var before, step := steps[..|steps| - 1], steps[|steps| - 1];
      OrderedIffNotOvertaken(s, before);
      OneLoggerLosesNothing(s, before);
      OneLoggerLosesNothing(s, steps);
      var t := Exec(s, before).value;
      NewestKept(t, step);
      OneMoreStep(t, step);
    }
  }

  lemma OneMoreStep(s: State, step: Step)
    requires NewestInHand(s) && CanStep(s, step) && (step.PushLine? ==> |s.queue.items| < s.queue.capacity)
    ensures var t := DoStep(s, step);
      Ascending(t.file + Backlog(t)) <==> Ascending(s.file + Backlog(s)) && (step.WriteDirect? ==> Backlog(s) == [])
  {
    hide Backlog, Ascending;
    LinesChange(s, step);
    if step.PushLine? {
      assert s.file + Backlog(s) + [] == s.file + Backlog(s);
      InsertedLine(s.file + Backlog(s), s.loggers[step.l].line, []);
    } else if step.WriteDirect? {
      InsertedLine(s.file, s.loggers[step.l].line, Backlog(s));
    }
  }

  // When the queue is full, the next line goes past those in the queue.
  lemma FullQueueIsOvertaken(s: State, a: int) returns (steps: seq<Step>)
    requires InitState(s) && !Unqueued(s) && a in s.loggers
    ensures Exec(s, steps).Some? && !Ascending(Exec(s, steps).value.file)
  {
    hide Runs.Exec;
    steps := Fill(s, a, s.queue.capacity);
    steps := Runs.Add(Next, s, steps, Format(a));
    steps := Runs.Add(Next, s, steps, TestFull(a));
    steps := Runs.Add(Next, s, steps, WriteDirect(a));
    steps := Runs.Add(Next, s, steps, WriterPop);
    steps := Runs.Add(Next, s, steps, WriterWrite);
    var file := Exec(s, steps).value.file;
    assert file[1] < file[0];
  }

  // A thread that formats its line first may write it last.
  lemma TwoLoggersCanSwap(s: State, a: int, b: int) returns (steps: seq<Step>)
    requires InitState(s) && Unqueued(s) && a in s.loggers && b in s.loggers && a != b
    ensures Exec(s, steps).Some? && !Ascending(Exec(s, steps).value.file)
  {
    Runs.NoSteps(Next, s);
    hide Runs.Exec;
    steps := Runs.Add(Next, s, [], Format(a));
    steps := Runs.Add(Next, s, steps, Format(b));
    steps := Runs.Add(Next, s, steps, TestFull(b));
    steps := Runs.Add(Next, s, steps, WriteDirect(b));
    steps := Runs.Add(Next, s, steps, TestFull(a));
    steps := Runs.Add(Next, s, steps, WriteDirect(a));
    var file := Exec(s, steps).value.file;
    assert file[1] < file[0];
  }

  // So the file is in order in every run if and only if at most one thread logs
  // and the queue is not used, or nobody logs.
  lemma AlwaysOrderedIff(s: State)
    requires InitState(s)
    ensures (forall steps :: Exec(s, steps).Some? ==> Ascending(Exec(s, steps).value.file))
       <==> NobodyLogs(s) || (AtMostOne(s) && Unqueued(s))
  {
    if NobodyLogs(s) || (AtMostOne(s) && Unqueued(s)) {
      forall steps | Exec(s, steps).Some? ensures Ascending(Exec(s, steps).value.file) {
        OrderedIffNotOvertaken(s, steps);
        NotOvertaken(s, steps);
        var t := Exec(s, steps).value;
        assert t.file == (t.file + Backlog(t))[..|t.file|];
      }
    } else if Unqueued(s) {
      var a, b :| a in s.loggers && b in s.loggers && a != b;
      var steps := TwoLoggersCanSwap(s, a, b);
      assert Exec(s, steps).Some? && !Ascending(Exec(s, steps).value.file);
    } else {
      var a :| a in s.loggers;
      var steps := FullQueueIsOvertaken(s, a);
      assert Exec(s, steps).Some? && !Ascending(Exec(s, steps).value.file);
    }
  }

  lemma {:induction false} NotOvertaken(s: State, steps: seq<Step>)
    requires InitState(s) && (NobodyLogs(s) || Unqueued(s)) && Exec(s, steps).Some?
    ensures !Overtaken(s, steps) && (NobodyLogs(s) ==> NobodyLogs(Exec(s, steps).value))
    decreases |steps|
  {
    if steps != [] {
      NotOvertaken(s, steps[..|steps| - 1]);
      if Unqueued(s) {
        SyncLosesNothing(s, steps[..|steps| - 1]);
      }
    }
  }
}
