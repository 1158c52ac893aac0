// The operations of log/block_queue.h on an abstract bounded queue.
module QueueSpec {
  // A bounded queue with its history since the last clear.
  datatype Queue<T> = Queue(capacity: nat, items: seq<T>, pushed: seq<T>, popped: seq<T>) {
    ghost predicate Fifo() {
      |items| <= capacity && pushed == popped + items
    }

    function Push(x: T): (r: (Queue<T>, bool))
      ensures Fifo() ==> r.0.Fifo()
      ensures r.1 <==> |items| < capacity
      ensures if r.1 then r.0.items == items + [x] else r.0 == this
    {
      if |items| >= capacity then (this, false) else (this.(items := items + [x], pushed := pushed + [x]), true)
    }

    function Take(): (r: (Queue<T>, T))
      requires items != []
      ensures Fifo() ==> r.0.Fifo()
      ensures items == [r.1] + r.0.items && r.0.capacity == capacity
    {
      (this.(items := items[1..], popped := popped + [items[0]]), items[0])
    }

    function Clear(): (r: Queue<T>)
      ensures r.Fifo() && r.items == [] && r.pushed == [] && r.capacity == capacity
    {
      this.(items := [], pushed := [], popped := [])
    }
  }

  // What other threads do to the queue while this one waits: whole operations,
  // because each of them runs under the mutex.
  datatype Op<T> = PushOp(item: T) | TakeOp | ClearOp

  function Others<T>(q: Queue<T>, ops: seq<Op<T>>): Queue<T>
    decreases |ops|
  {
    if ops == [] then q
    else
      var q1 := match ops[0]
        case PushOp(x) => q.Push(x).0
        case TakeOp => if q.items == [] then q else q.Take().0
        case ClearOp => q.Clear();
      Others(q1, ops[1..])
  }

  // One wait on the condition: what happens until it returns, and its result.
  datatype Wake<T> = Wake(ops: seq<Op<T>>, ok: bool)

  // Asleep: the last wait has not returned.
  datatype Popped<T> = Item(value: T) | Failed | Asleep

  function Pop<T>(q: Queue<T>, wakes: seq<Wake<T>>): (r: (Queue<T>, Popped<T>))
    decreases |wakes|
  {
    if q.items != [] then (q.Take().0, Item(q.items[0]))
    else if wakes == [] then (q, Asleep)
    else
      var q1 := Others(q, wakes[0].ops);
      if wakes[0].ok then Pop(q1, wakes[1..]) else (q1, Failed)
  }

  // The timed pop waits once only, and its wait also fails on a timeout.
  function TimedPop<T>(q: Queue<T>, wake: Wake<T>): (r: (Queue<T>, Popped<T>)) {
    if q.items != [] then (q.Take().0, Item(q.items[0]))
    else
      var q1 := Others(q, wake.ops);
      if !wake.ok || q1.items == [] then (q1, Failed) else (q1.Take().0, Item(q1.items[0]))
  }

  lemma {:induction false} OthersKeepFifo<T>(q: Queue<T>, ops: seq<Op<T>>)
    requires q.Fifo()
    ensures Others(q, ops).Fifo() && Others(q, ops).capacity == q.capacity
    decreases |ops|
  {
    if ops != [] {
      var q1 := match ops[0]
        case PushOp(x) => q.Push(x).0
        case TakeOp => if q.items == [] then q else q.Take().0
        case ClearOp => q.Clear();
      OthersKeepFifo(q1, ops[1..]);
    }
  }

  // Whatever happens during the waits, what a pop returns is the oldest item
  // that was pushed and not popped before.
  lemma {:induction false} PopIsFifo<T>(q: Queue<T>, wakes: seq<Wake<T>>)
    requires q.Fifo()
    ensures var (r, res) := Pop(q, wakes);
      r.Fifo() && (res.Item? ==> r.popped != [] && res.value == r.popped[|r.popped| - 1] == r.pushed[|r.popped| - 1])
    decreases |wakes|
  {
    if q.items == [] && wakes != [] {
      OthersKeepFifo(q, wakes[0].ops);
      if wakes[0].ok {
        PopIsFifo(Others(q, wakes[0].ops), wakes[1..]);
      }
    }
  }

  lemma TimedPopIsFifo<T>(q: Queue<T>, wake: Wake<T>)
    requires q.Fifo()
    ensures var (r, res) := TimedPop(q, wake);
      r.Fifo() && (res.Item? ==> r.popped != [] && res.value == r.popped[|r.popped| - 1] == r.pushed[|r.popped| - 1])
  {
    OthersKeepFifo(q, wake.ops);
  }

  // ---------- what comes out, and when ----------

  function PushAll<T>(q: Queue<T>, xs: seq<T>): Queue<T>
    decreases |xs|
  {
    if xs == [] then q else PushAll(q.Push(xs[0]).0, xs[1..])
  }

  function TakeAll<T>(q: Queue<T>): seq<T>
    decreases |q.items|
  {
    if q.items == [] then [] else [q.Take().1] + TakeAll(q.Take().0)
  }

  // Items that fit are all stored and come out again in the same order; without
  // room an item is refused, and nothing changes.
  lemma {:induction false} PushedIsTaken<T>(q: Queue<T>, xs: seq<T>)
    requires |q.items| + |xs| <= q.capacity
    ensures PushAll(q, xs).items == q.items + xs && PushAll(q, xs).capacity == q.capacity
    ensures TakeAll(PushAll(q, xs)) == q.items + xs
    ensures forall x :: |q.items| + |xs| == q.capacity ==> PushAll(q, xs).Push(x) == (PushAll(q, xs), false)
    decreases |xs|
  {
    if xs == [] {
      TakesItems(q);
      assert q.items + xs == q.items;
    } else {
      PushedIsTaken(q.Push(xs[0]).0, xs[1..]);
      assert q.items + [xs[0]] + xs[1..] == q.items + xs;
    }
  }

  lemma {:induction false} TakesItems<T>(q: Queue<T>)
    ensures TakeAll(q) == q.items
    decreases |q.items|
  {
    if q.items != [] {
      TakesItems(q.Take().0);
    }
  }

  // The queue when the first k waits have returned.
  function After<T>(q: Queue<T>, wakes: seq<Wake<T>>, k: nat): Queue<T>
    requires k <= |wakes|
    decreases k
  {
    if k == 0 then q else After(Others(q, wakes[0].ops), wakes[1..], k - 1)
  }

  // k waits in a row have found the queue empty, and have been successful.
  ghost predicate StillWaits<T>(q: Queue<T>, wakes: seq<Wake<T>>, k: nat)
    requires k <= |wakes|
  {
    forall i :: 0 <= i < k ==> After(q, wakes, i).items == [] && wakes[i].ok
  }

  // The pop returns the first item of the first queue that is not empty, unless
  // a wait has failed before; it fails only then, and otherwise it still sleeps.
  lemma {:induction false} PopAnswers<T>(q: Queue<T>, wakes: seq<Wake<T>>, k: nat)
    requires k <= |wakes| && StillWaits(q, wakes, k)
    ensures var found := After(q, wakes, k);
      && (found.items != [] ==> Pop(q, wakes) == (found.Take().0, Item(found.items[0])))
      && (found.items == [] && k == |wakes| ==> Pop(q, wakes) == (found, Asleep))
      && (found.items == [] && k < |wakes| && !wakes[k].ok ==> Pop(q, wakes) == (After(q, wakes, k + 1), Failed))
    decreases k
  {
    if k > 0 {
      var q1, later := Others(q, wakes[0].ops), wakes[1..];
      assert After(q, wakes, 0).items == [] && wakes[0].ok;
      forall i | 0 <= i < k - 1 ensures After(q1, later, i).items == [] && later[i].ok {
        assert After(q, wakes, i + 1).items == [] && wakes[i + 1].ok;
      }
      PopAnswers(q1, later, k - 1);
    }
  }

  // One of these three cases always applies.
  lemma {:induction false} PopIsDecided<T>(q: Queue<T>, wakes: seq<Wake<T>>) returns (k: nat)
    ensures k <= |wakes| && StillWaits(q, wakes, k)
    ensures After(q, wakes, k).items != [] || k == |wakes| || !wakes[k].ok
    ensures Pop(q, wakes).1.Failed? <==> After(q, wakes, k).items == [] && k < |wakes|
    decreases |wakes|
  {
    if q.items != [] || wakes == [] || !wakes[0].ok {
      k := 0;
    } else {
      var q1, later := Others(q, wakes[0].ops), wakes[1..];
      k := PopIsDecided(q1, later);
      forall i | 0 <= i < k + 1 ensures After(q, wakes, i).items == [] && wakes[i].ok {
        if i > 0 {
          assert After(q1, later, i - 1).items == [] && later[i - 1].ok;
        }
      }
      k := k + 1;
    }
  }

  // The timed pop fails if and only if it had to wait and the wait failed or the
  // queue is empty behind it; otherwise it returns the first item.
  lemma TimedPopAnswers<T>(q: Queue<T>, wake: Wake<T>)
    ensures var (r, res) := TimedPop(q, wake); var found := if q.items == [] then Others(q, wake.ops) else q;
      && (res.Failed? <==> q.items == [] && (!wake.ok || found.items == []))
      && (res.Failed? ==> r == found)
      && (!res.Failed? ==> found.items != [] && res == Item(found.items[0]) && r == found.Take().0)
      && (q.items != [] || wake.ok ==> (res.Failed? ==> r.items == []))
  {
  }

  // An example for both: an item pushed during a wait is returned.
  lemma PushedWhileWaiting<T>(q: Queue<T>, x: T)
    requires q.items == [] && q.capacity > 0
    ensures Pop(q, [Wake([PushOp(x)], true)]).1 == Item(x) && TimedPop(q, Wake([PushOp(x)], true)).1 == Item(x)
  {
    OthersPush(q, x);
    assert [Wake([PushOp(x)], true)][1..] == [];
  }

  lemma OthersPush<T>(q: Queue<T>, x: T)
    ensures Others(q, [PushOp(x)]) == q.Push(x).0
  {
    assert [PushOp(x)][1..] == [];
  }
}

// The ring buffer of log/block_queue.h: what each operation does while it holds
// the mutex.
module BlockQueue {
  import opened Modular
  import opened QueueSpec

  class Ring<T(0)> {
    const m_array: array<T>
    const m_max_size: int
    var m_size: int
    var m_front: int
    var m_back: int
    ghost var pushed: seq<T>
    ghost var popped: seq<T>

    // m_back is congruent to m_front + m_size.
    ghost predicate Valid()
      reads this
    {
      && 0 < m_max_size == m_array.Length && 0 <= m_size <= m_max_size
      && -1 <= m_front < m_max_size && -1 <= m_back < m_max_size
      && m_back == Wrap(m_front + m_size, m_max_size)
    }

    // The live item number k is at (m_front + 1 + k) mod m_max_size.
    ghost function Place(k: int): (i: int)
      requires Valid() && 0 <= k < m_size
      reads this
      ensures 0 <= i < m_max_size && i == (m_front + 1 + k) % m_max_size
    {
      WrapIsMod(m_front + 1 + k, m_max_size);
      Wrap(m_front + 1 + k, m_max_size)
    }

    ghost function Abs(): (q: Queue<T>)
      requires Valid()
      reads this, m_array
      ensures |q.items| == m_size && q.capacity == m_max_size
    {
      var items := seq(m_size, k requires 0 <= k < m_size && Valid() reads this, m_array => m_array[Place(k)]);
      Queue(m_max_size, items, pushed, popped)
    }

    // log/block_queue.h:20.  The program ends when the size is not positive.
    constructor (max_size: int)
      requires max_size > 0
      ensures Valid() && fresh(m_array) && m_max_size == max_size && Abs() == Queue(max_size, [], [], [])
    {
      m_max_size := max_size;
      m_array := new T[max_size];
      m_size, m_front, m_back := 0, -1, -1;
      pushed, popped := [], [];
    }

    // log/block_queue.h:34
    method Clear()
      requires Valid()
      modifies this
      ensures Valid() && Abs() == old(Abs()).Clear()
    {
      m_size := 0;
      m_front := -1;
      m_back := -1;
      pushed, popped := [], [];
    }

    // log/block_queue.h:52
    method Full() returns (b: bool)
      requires Valid()
      ensures b <==> |Abs().items| == Abs().capacity
    {
      b := m_size >= m_max_size;
    }

    // log/block_queue.h:65
    method Empty() returns (b: bool)
      requires Valid()
      ensures b <==> Abs().items == []
    {
      b := 0 == m_size;
    }

    // log/block_queue.h:90.  The last item, if there is one.
    method Back() returns (ok: bool, value: T)
      requires Valid()
      ensures ok <==> Abs().items != []
      ensures ok ==> value == Abs().items[|Abs().items| - 1]
    {
      if 0 == m_size {
        value := *;
        return false, value;
      }
      BackIsLast();
      value := m_array[m_back];
      return true, value;
    }

    lemma BackIsLast()
      requires Valid() && m_size > 0
      ensures 0 <= m_back && m_back == Place(m_size - 1)
    {
    }

    // log/block_queue.h:131-146
    method Push(item: T) returns (ok: bool)
      requires Valid()
      modifies this, m_array
      ensures Valid() && (Abs(), ok) == old(Abs()).Push(item)
    {
      if m_size >= m_max_size {
        return false;
      }
      WrapIsMod(m_back + 1, m_max_size);
      m_back := (m_back + 1) % m_max_size;
      m_array[m_back] := item;
      m_size := m_size + 1;
      pushed := pushed + [item];
      assert Abs().items == old(Abs()).items + [item];
      return true;
    }

    // log/block_queue.h:163-167 and 194-198, once the queue is known not to be
    // empty
    method TakeFront() returns (item: T)
      requires Valid() && m_size > 0
      modifies this
      ensures Valid() && (Abs(), item) == old(Abs()).Take()
    {
      WrapIsMod(m_front + 1, m_max_size);
      m_front := (m_front + 1) % m_max_size;
      item := m_array[m_front];
      m_size := m_size - 1;
      popped := popped + [item];
      assert Abs().items == old(Abs()).items[1..];
    }

    method RunOthers(ops: seq<Op<T>>)
      requires Valid()
      modifies this, m_array
      ensures Valid() && Abs() == Others(old(Abs()), ops)
    {
      var i := 0;
      while i < |ops|
        invariant 0 <= i <= |ops| && Valid() && Others(Abs(), ops[i..]) == Others(old(Abs()), ops)
      {
        match ops[i] {
          case PushOp(x) => var _ := Push(x);
          case TakeOp =>
            if m_size > 0 {
              var _ := TakeFront();
            }
          case ClearOp => Clear();
        }
        assert ops[i..][1..] == ops[i + 1..];
        i := i + 1;
      }
    }

    // log/block_queue.h:149
    method Pop(wakes: seq<Wake<T>>) returns (r: Popped<T>)
      requires Valid()
      modifies this, m_array
      ensures Valid() && (Abs(), r) == QueueSpec.Pop(old(Abs()), wakes)
    {
      var i := 0;
      while m_size <= 0
        invariant 0 <= i <= |wakes| && Valid() && QueueSpec.Pop(Abs(), wakes[i..]) == QueueSpec.Pop(old(Abs()), wakes)
        decreases |wakes| - i
      {
        if i == |wakes| {
          return Asleep;
        }
        RunOthers(wakes[i].ops);
        assert wakes[i..][1..] == wakes[i + 1..];
        i := i + 1;
        if !wakes[i - 1].ok {
          return Failed;
        }
      }
      var item := TakeFront();
      return Item(item);
    }

    // log/block_queue.h:171
    method TimedPop(wake: Wake<T>) returns (r: Popped<T>)
      requires Valid()
      modifies this, m_array
      ensures Valid() && (Abs(), r) == QueueSpec.TimedPop(old(Abs()), wake)
    {
      if m_size <= 0 {
        RunOthers(wake.ops);
        if !wake.ok {
          return Failed;
        }
        if m_size <= 0 {
          return Failed;
        }
      }
      var item := TakeFront();
      return Item(item);
    }
  }
}

// Any number of producers and consumers on one queue.  A critical section is one
// step; between two of them anything can happen.
module QueueProtocol {
  import opened QueueSpec

  // Where a consumer stands in one of the two pops.
  datatype Consumer = Outside | Waiting(timed: bool) | Awake(timed: bool, ok: bool)

  datatype State<T> = State(q: Queue<T>, consumers: map<int, Consumer>)

  datatype Step<T> =
    | PushItem(item: T)            // a whole push, with its broadcast
    | ClearAll
    | Start(c: int, timed: bool)   // pop up to the item or the wait
    | WakeUp(c: int, ok: bool)     // a wait ends by itself, by timeout or by error
    | Resume(c: int)               // the mutex is held again, and pop goes on

  predicate CanStep<T>(s: State<T>, step: Step<T>) {
    match step
    case PushItem(_) => true
    case ClearAll => true
    case Start(c, _) => c in s.consumers && s.consumers[c].Outside?
    case WakeUp(c, _) => c in s.consumers && s.consumers[c].Waiting?
    case Resume(c) => c in s.consumers && s.consumers[c].Awake?
  }

  function Broadcast(consumers: map<int, Consumer>): map<int, Consumer> {
    map c | c in consumers :: if consumers[c].Waiting? then Awake(consumers[c].timed, true) else consumers[c]
  }

  function DoStep<T>(s: State<T>, step: Step<T>): State<T>
    requires CanStep(s, step)
  {
    match step
    case PushItem(x) => State(s.q.Push(x).0, Broadcast(s.consumers))
    case ClearAll => s.(q := s.q.Clear())
    case Start(c, timed) =>
      if s.q.items == [] then s.(consumers := s.consumers[c := Waiting(timed)]) else s.(q := s.q.Take().0)
    case WakeUp(c, ok) => s.(consumers := s.consumers[c := Awake(s.consumers[c].timed, ok)])
    case Resume(c) =>
      if !s.consumers[c].ok then s.(consumers := s.consumers[c := Outside])
      else if s.q.items != [] then State(s.q.Take().0, s.consumers[c := Outside])
      else if s.consumers[c].timed then s.(consumers := s.consumers[c := Outside])
      else s.(consumers := s.consumers[c := Waiting(false)])
  }

  // No consumer sleeps while there is something to take.
  ghost predicate NoSleeper<T>(s: State<T>) {
    s.q.items != [] ==> forall c :: c in s.consumers ==> !s.consumers[c].Waiting?
  }

  ghost predicate IsRun<T>(run: seq<State<T>>, steps: seq<Step<T>>) {
    && |run| == |steps| + 1
    && run[0].q.items == [] && run[0].q.pushed == [] && run[0].q.popped == []
    && forall i :: 0 <= i < |steps| ==> CanStep(run[i], steps[i]) && run[i + 1] == DoStep(run[i], steps[i])
  }

  // A step leaves the items popped so far alone, or forgets them, or takes the
  // first item of a queue that has one.
  ghost predicate TakesOnlyTheFirst<T>(s: Queue<T>, t: Queue<T>) {
    || t.popped == s.popped
    || (t.items == [] && t.popped == [])
    || (s.items != [] && t.popped == s.popped + [s.items[0]] && t.items == s.items[1..])
  }

  // In every interleaving, the items popped since the last clear followed by
  // those stored are the items pushed since then, in order; no step takes from
  // an empty queue, however many consumers a broadcast has woken; and nobody
  // waits for an item that is there.
  lemma {:induction false} RunsAreFifo<T>(run: seq<State<T>>, steps: seq<Step<T>>, i: nat)
    requires IsRun(run, steps) && i < |run|
    ensures run[i].q.pushed == run[i].q.popped + run[i].q.items && |run[i].q.items| <= run[i].q.capacity
    ensures run[i].q.capacity == run[0].q.capacity && NoSleeper(run[i])
    ensures i > 0 ==> TakesOnlyTheFirst(run[i - 1].q, run[i].q)
  {
    if i > 0 {
      RunsAreFifo(run, steps, i - 1);
      var s := run[i - 1];
      assert s.q.Fifo() && run[i] == DoStep(s, steps[i - 1]);
    }
  }

  // Without a clear, the queue forgets nothing: what has been popped or pushed
  // before stays at the front of the two histories.
  lemma {:induction false} HistoriesGrow<T>(run: seq<State<T>>, steps: seq<Step<T>>, i: nat, j: nat)
    requires IsRun(run, steps) && i <= j < |run| && forall k :: i <= k < j ==> !steps[k].ClearAll?
    ensures run[i].q.pushed <= run[j].q.pushed && run[i].q.popped <= run[j].q.popped
    decreases j
  {
    if i < j {
      HistoriesGrow(run, steps, i, j - 1);
      assert run[j] == DoStep(run[j - 1], steps[j - 1]);
    }
  }

  // A consumer goes away without an item only if its wait has failed, or if it
  // does not wait again and the queue is empty.  A woken one that finds an item
  // takes it; and without an item an untimed one waits again.
  lemma NobodyLeavesTooEarly<T>(run: seq<State<T>>, steps: seq<Step<T>>, i: nat, c: int)
    requires IsRun(run, steps) && i < |steps| && c in run[i].consumers && !run[i].consumers[c].Outside?
    ensures c in run[i + 1].consumers
    ensures run[i + 1].consumers[c].Outside? ==>
      var s, t := run[i], run[i + 1];
      && s.consumers[c].Awake?
      && (if s.q.items != [] && s.consumers[c].ok then t.q.popped == s.q.popped + [s.q.items[0]]
          else t.q == s.q && (!s.consumers[c].ok || s.consumers[c].timed))
    ensures steps[i] == Resume(c) && run[i].consumers[c].Awake? ==>
      var w := run[i].consumers[c];
      run[i + 1].consumers[c] ==
        if !w.ok || w.timed || run[i].q.items != [] then Consumer.Outside else Consumer.Waiting(false)
  {
    assert CanStep(run[i], steps[i]) && run[i + 1] == DoStep(run[i], steps[i]);
  }

  // And one that starts goes to sleep only if the queue is empty.
  lemma NobodySleepsTooEarly<T>(run: seq<State<T>>, steps: seq<Step<T>>, i: nat, c: int)
    requires IsRun(run, steps) && i < |steps| && c in run[i].consumers && run[i].consumers[c].Outside?
    ensures c in run[i + 1].consumers
    ensures !run[i + 1].consumers[c].Outside? ==> run[i].q.items == [] && run[i + 1].consumers[c].Waiting?
    ensures steps[i].Start? && steps[i].c == c && run[i].q.items != [] ==>
      run[i + 1].q.popped == run[i].q.popped + [run[i].q.items[0]]
  {
    assert CanStep(run[i], steps[i]) && run[i + 1] == DoStep(run[i], steps[i]);
  }
}
