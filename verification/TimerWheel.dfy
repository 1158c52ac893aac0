// The abstract timer service: a map from live timers to the number of ticks
// that will pass before the one that fires them.
module TimerSpec {
  // Number of slots of the wheel, and seconds between two ticks.
  const N := 60
  const TI := 1

  datatype Event<T> = Add(timer: T, timeout: int) | Adjust(timer: T, timeout: int) | Delete(timer: T) | Tick

  function TicksOf(timeout: int): int {
    if timeout < TI then 1 else timeout / TI
  }

  ghost function Fired<T>(m: map<T, int>): set<T> {
    set t | t in m && m[t] == 0
  }

  ghost function AfterTick<T>(m: map<T, int>): map<T, int> {
    map t | t in m && m[t] != 0 :: m[t] - 1
  }

  ghost function Step<T>(m: map<T, int>, e: Event<T>): map<T, int> {
    match e
    case Add(t, timeout) => m[t := TicksOf(timeout)]
    case Adjust(t, timeout) => m[t := TicksOf(timeout)]
    case Delete(t) => m - {t}
    case Tick => AfterTick(m)
  }

  ghost function Run<T>(m: map<T, int>, es: seq<Event<T>>): map<T, int> {
    if es == [] then m else Step(Run(m, es[..|es| - 1]), es[|es| - 1])
  }

  ghost predicate Touches<T>(e: Event<T>, t: T) {
    !e.Tick? && e.timer == t
  }

  ghost function TickCount<T>(es: seq<Event<T>>): nat {
    if es == [] then 0 else TickCount(es[..|es| - 1]) + if es[|es| - 1].Tick? then 1 else 0
  }

  // event i of the run fires t
  ghost predicate FiresAt<T>(m: map<T, int>, es: seq<Event<T>>, i: int, t: T)
    requires 0 <= i < |es|
  {
    es[i].Tick? && t in Fired(Run(m, es[..i]))
  }

  // A timer that is left alone counts down by one per tick and is gone after
  // the tick that finds it at zero.
  lemma {:induction false} CountsDown<T>(m: map<T, int>, es: seq<Event<T>>, t: T)
    requires t in m && m[t] >= 0
    requires forall e :: e in es ==> !Touches(e, t)
    ensures t in Run(m, es) <==> TickCount(es) <= m[t]
    ensures t in Run(m, es) ==> Run(m, es)[t] == m[t] - TickCount(es)
  {
    if es != [] {
      var init := es[..|es| - 1];
      assert forall e :: e in init ==> e in es;
      CountsDown(m, init, t);
      assert !Touches(es[|es| - 1], t);
    }
  }

  lemma {:induction false} RunJoins<T>(m: map<T, int>, es: seq<Event<T>>, fs: seq<Event<T>>)
    ensures Run(m, es + fs) == Run(Run(m, es), fs)
  {
    if fs == [] {
      assert es + fs == es;
    } else {
      assert (es + fs)[..|es + fs| - 1] == es + fs[..|fs| - 1];
      RunJoins(m, es, fs[..|fs| - 1]);
    }
  }

  lemma RunSnoc<T>(m: map<T, int>, es: seq<Event<T>>, e: Event<T>)
    ensures Run(m, es + [e]) == Step(Run(m, es), e)
  {
    assert (es + [e])[..|es|] == es;
  }

  // Event j sets timer t going and nothing touches t between j and i.  Then
  // event i fires t exactly when it is tick number TicksOf(timeout) + 1 after j:
  // not earlier, not later and not twice.
  lemma FiresOnSchedule<T>(m: map<T, int>, es: seq<Event<T>>, j: int, i: int, t: T)
    requires 0 <= j < i < |es|
    requires (es[j].Add? || es[j].Adjust?) && es[j].timer == t
    requires forall k :: j < k < i ==> !Touches(es[k], t)
    ensures FiresAt(m, es, i, t) <==> es[i].Tick? && TickCount(es[j + 1..i]) == TicksOf(es[j].timeout)
  {
    var mid := es[j + 1..i];
    assert es[..i] == es[..j + 1] + mid;
    RunJoins(m, es[..j + 1], mid);
    assert es[..j + 1][..j] == es[..j];
    assert forall e :: e in mid ==> !Touches(e, t);
    CountsDown(Run(m, es[..j + 1]), mid, t);
  }

  // The same in seconds: with a timeout of zero the timer fires at the second
  // tick from then on, and otherwise timeout ticks pass before the one that
  // fires it.
  lemma FiresAfterSeconds<T>(m: map<T, int>, es: seq<Event<T>>, j: int, i: int, t: T)
    requires 0 <= j < i < |es|
    requires (es[j].Add? || es[j].Adjust?) && es[j].timer == t
    requires forall k :: j < k < i ==> !Touches(es[k], t)
    ensures FiresAt(m, es, i, t) <==>
      es[i].Tick? && TickCount(es[j + 1..i]) == if es[j].timeout <= 0 then 1 else es[j].timeout
  {
    FiresOnSchedule(m, es, j, i, t);
  }

  // j is the last of the first i events that touches t, and it sets t going.
  ghost predicate LastSet<T>(es: seq<Event<T>>, i: int, j: int, t: T) {
    && 0 <= j < i <= |es| && (es[j].Add? || es[j].Adjust?) && es[j].timer == t
    && forall k :: j < k < i ==> !Touches(es[k], t)
  }

  // As many ticks as event j asks for, in seconds, have passed before event i.
  ghost predicate TimeIsUp<T>(es: seq<Event<T>>, i: int, j: int)
    requires 0 <= j < i <= |es| && (es[j].Add? || es[j].Adjust?)
  {
    TickCount(es[j + 1..i]) == if es[j].timeout <= 0 then 1 else es[j].timeout
  }

  // Whatever happened before, a timer fires exactly at the tick that comes the
  // right number of ticks after it was last set; so one that is adjusted or
  // deleted in time does not fire.
  lemma FiresIffSetLongAgo<T>(es: seq<Event<T>>, i: int, t: T)
    requires 0 <= i < |es|
    ensures FiresAt(map[], es, i, t) <==>
      es[i].Tick? && exists j :: LastSet(es, i, j, t) && TimeIsUp(es, i, j)
  {
    if FiresAt(map[], es, i, t) {
      var j := LastSetting(es, i, t);
      FiresAfterSeconds(map[], es, j, i, t);
      assert LastSet(es, i, j, t);
    }
    if j :| es[i].Tick? && LastSet(es, i, j, t) && TimeIsUp(es, i, j) {
      FiresAfterSeconds(map[], es, j, i, t);
    }
  }

  lemma {:induction false} LastSetting<T>(es: seq<Event<T>>, i: int, t: T) returns (j: int)
    requires 0 <= i <= |es| && t in Run(map[], es[..i])
    ensures 0 <= j < i && (es[j].Add? || es[j].Adjust?) && es[j].timer == t
    ensures forall k :: j < k < i ==> !Touches(es[k], t)
    decreases i
  {
    assert es[..i][..i - 1] == es[..i - 1];
    if Touches(es[i - 1], t) {
      j := i - 1;
    } else {
      j := LastSetting(es, i - 1, t);
    }
  }
}

// The timing wheel of epoll/timerwheel.h: N doubly linked lists of timers.
module TimerWheel {
  import opened TimerSpec

  class Timer {
    var rotation: int
    var time_slot: int
    var next: Timer?
    var prev: Timer?
    ghost var idx: int  // position in the list of its slot

    constructor ()
      ensures rotation == 0 && time_slot == 0 && next == null && prev == null
    {
      rotation, time_slot := 0, 0;
      next, prev := null, null;
    }

    // epoll/timerwheel.h:39
    method Init(timeout: int, cur_slot: int)
      requires 0 <= cur_slot < N
      modifies this`rotation, this`time_slot
      ensures 0 <= time_slot < N && rotation >= 0
      ensures rotation * N + (time_slot - cur_slot) % N == TicksOf(timeout)
      ensures rotation * 60 + (time_slot - cur_slot) % 60 == if timeout <= 0 then 1 else timeout
    {
      var ticks := 0;
      if timeout < TI {
        ticks := 1;
      } else {
        ticks := timeout / TI;
      }
      rotation := ticks / N;
      time_slot := (cur_slot + ticks % N) % N;
    }
  }

  class TimeWheel {
    const slots: array<Timer?>
    var cur_slot: int
    ghost var Lists: seq<seq<Timer>>  // the timers of every slot, in list order
    ghost var Timers: set<Timer>      // the live timers
    ghost var Calls: seq<Timer>       // the callbacks made so far
    ghost var History: seq<Event<Timer>>  // the operations so far

    ghost predicate TimerOk(t: Timer)
      requires |Lists| == N
      reads this`Lists, t
    {
      && t.rotation >= 0 && 0 <= t.time_slot < N
      && 0 <= t.idx < |Lists[t.time_slot]| && Lists[t.time_slot][t.idx] == t
      && t.prev == (if t.idx > 0 then Lists[t.time_slot][t.idx - 1] else null)
      && t.next == (if t.idx + 1 < |Lists[t.time_slot]| then Lists[t.time_slot][t.idx + 1] else null)
    }

    ghost predicate SlotOk(s: int)
      requires slots.Length == N && |Lists| == N && 0 <= s < N
      reads this`Lists, this`Timers, slots, Timers
    {
      && slots[s] == (if Lists[s] == [] then null else Lists[s][0])
      && forall i :: 0 <= i < |Lists[s]| ==> Lists[s][i] in Timers && Lists[s][i].time_slot == s && Lists[s][i].idx == i
    }

    // Each slot is a null-terminated list with matching links, the lists are
    // disjoint, and each live timer is in the list of its own slot.
    ghost predicate Valid()
      reads this`Lists, this`Timers, this`cur_slot, slots, Timers
    {
      && slots.Length == N && |Lists| == N && 0 <= cur_slot < N
      && (forall s {:trigger SlotOk(s)} :: 0 <= s < N ==> SlotOk(s))
      && (forall t {:trigger TimerOk(t)} :: t in Timers ==> TimerOk(t))
    }

    ghost function Remaining(t: Timer): int
      reads this`cur_slot, t
    {
      RemainingAt(t, cur_slot)
    }

    ghost function Abs(): map<Timer, int>
      reads this`Timers, this`cur_slot, Timers
    {
      map t | t in Timers :: Remaining(t)
    }

    // The state of the wheel is what its history makes of the empty service.
    ghost predicate Running()
      reads this`Lists, this`Timers, this`cur_slot, this`History, slots, Timers
    {
      Valid() && Abs() == Run(map[], History)
    }

    // epoll/timerwheel.h:62
    constructor ()
      ensures Running() && fresh(slots) && slots.Length == 60 && History == [] && Calls == []
    {
      slots := new Timer?[N](_ => null);
      cur_slot := 0;
      Lists := seq(N, _ => []);
      Timers := {};
      Calls, History := [], [];
    }

    // ---------- the two list operations ----------

    twostate predicate AtFront(new t: Timer, new s: int)
      reads this, slots, Timers
    {
      && 0 <= s < N == |old(Lists)| && slots.Length == N && cur_slot == old(cur_slot)
      && t !in old(Timers) && Timers == old(Timers) + {t}
      && Lists == old(Lists)[s := [t] + old(Lists[s])]
      && (forall i :: 0 <= i < N ==> slots[i] == if i == s then t else old(slots[i]))
      && t.time_slot == s && t.idx == 0 && t.rotation >= 0 && t.prev == null && t.next == old(slots[s])
      && (forall u :: u in old(Timers) ==>
        && u.rotation == old(u.rotation) && u.time_slot == old(u.time_slot) && u.next == old(u.next)
        && u.idx == old(u.idx) + (if old(u.time_slot) == s then 1 else 0)
        && u.prev == if u == old(slots[s]) then t else old(u.prev))
    }

    twostate lemma AtFrontTimer(new t: Timer, new s: int, new u: Timer)
      requires old(Valid()) && AtFront(t, s) && u in Timers
      ensures TimerOk(u)
    {
      assert old(SlotOk(s));
      if u != t {
        assert old(TimerOk(u));
      }
    }

    twostate lemma AtFrontKeeps(new t: Timer, new s: int)
      requires old(Valid()) && AtFront(t, s)
      ensures Valid()
    {
      forall u | u in Timers ensures TimerOk(u) {
        AtFrontTimer(t, s, u);
      }
      forall i | 0 <= i < N ensures SlotOk(i) {
        assert old(SlotOk(i));
      }
    }

    // epoll/timerwheel.h:95-105 and, in the same words, 214-226
    method PushFront(timer: Timer)
      requires Valid() && timer !in Timers && timer.next == null && timer.prev == null
      requires 0 <= timer.time_slot < N && timer.rotation >= 0
      modifies this`Lists, this`Timers, slots, timer`next, timer`idx, Timers`prev, Timers`idx
      ensures AtFront(timer, timer.time_slot)
    {
      var ts := timer.time_slot;
      assert SlotOk(ts);
      if slots[ts] == null {
        slots[ts] := timer;
      } else {
        timer.next := slots[ts];
        slots[ts].prev := timer;
        slots[ts] := timer;
      }
      forall u | u in Timers { u.idx := u.idx + if u.time_slot == ts then 1 else 0; }
      timer.idx := 0;
      Lists := Lists[ts := [timer] + Lists[ts]];
      Timers := Timers + {timer};
    }

    twostate predicate Unlinked(new t: Timer)
      reads this, slots, Timers
    {
      && |old(Lists)| == N && slots.Length == N && cur_slot == old(cur_slot)
      && t in old(Timers) && Timers == old(Timers) - {t}
      && 0 <= old(t.time_slot) < N && 0 <= old(t.idx) < |old(Lists)[old(t.time_slot)]|
      && Lists == old(Lists)[old(t.time_slot) := old(Lists[t.time_slot][..t.idx] + Lists[t.time_slot][t.idx + 1..])]
      && (forall i :: 0 <= i < N ==> slots[i] == if old(slots[i]) == t then old(t.next) else old(slots[i]))
      && (forall u :: u in Timers ==>
        && u.rotation == old(u.rotation) && u.time_slot == old(u.time_slot)
        && u.idx == old(u.idx) - (if old(u.time_slot == t.time_slot && u.idx > t.idx) then 1 else 0)
        && u.next == (if u == old(t.prev) then old(t.next) else old(u.next))
        && u.prev == (if u == old(t.next) then old(t.prev) else old(u.prev)))
    }

    twostate lemma UnlinkedTimer(new t: Timer, new u: Timer)
      requires old(Valid()) && Unlinked(t) && u in Timers
      ensures TimerOk(u)
    {
      assert old(TimerOk(t) && TimerOk(u));
      assert old(SlotOk(t.time_slot));
    }

    twostate lemma UnlinkedSlot(new t: Timer, new i: int)
      requires old(Valid()) && Unlinked(t) && 0 <= i < N
      ensures SlotOk(i)
    {
      assert old(TimerOk(t));
      assert old(SlotOk(i));
    }

    twostate lemma UnlinkedKeeps(new t: Timer)
      requires old(Valid()) && Unlinked(t)
      ensures Valid()
    {
      forall u | u in Timers ensures TimerOk(u) {
        UnlinkedTimer(t, u);
      }
      forall i | 0 <= i < N ensures SlotOk(i) {
        UnlinkedSlot(t, i);
      }
    }

    lemma Neighbours(t: Timer)
      requires Valid() && t in Timers
      ensures TimerOk(t) && SlotOk(t.time_slot)
      ensures t.next != null ==> t.next in Timers && t.next != t && t.next.prev == t && t.next != t.prev
      ensures t.prev != null ==> t.prev in Timers && t.prev != t && t.prev.next == t
      ensures t == slots[t.time_slot] <==> t.prev == null
      ensures forall i :: 0 <= i < N && slots[i] == t ==> i == t.time_slot
    {
      assert TimerOk(t) && SlotOk(t.time_slot);
      assert t.next != null ==> TimerOk(t.next);
      assert t.prev != null ==> TimerOk(t.prev);
      forall i | 0 <= i < N && slots[i] == t ensures i == t.time_slot {
        assert SlotOk(i);
      }
    }

    // The source takes a timer out of its list in three places: lines 118-135
    // (del_timer), 189-207 (adjust_timer) and 155-176 (tick) of
    // epoll/timerwheel.h.
    method Unlink(timer: Timer)
      requires Valid() && timer in Timers
      modifies this`Lists, this`Timers, slots, (Timers - {timer})`next, (Timers - {timer})`prev, (Timers - {timer})`idx
      ensures Unlinked(timer)
    {
      Neighbours(timer);
      var ts := timer.time_slot;
      if timer == slots[ts] {
        slots[ts] := timer.next;
        if slots[ts] != null {
          slots[ts].prev := null;
        }
      } else {
        timer.prev.next := timer.next;
        if timer.next != null {
          timer.next.prev := timer.prev;
        }
      }
      Timers := Timers - {timer};
      forall u | u in Timers { u.idx := u.idx - if u.time_slot == ts && u.idx > timer.idx then 1 else 0; }
      Lists := Lists[ts := Lists[ts][..timer.idx] + Lists[ts][timer.idx + 1..]];
    }

    method Enter(timer: Timer)
      requires Valid() && timer !in Timers && timer.next == null && timer.prev == null
      requires 0 <= timer.time_slot < N && timer.rotation >= 0
      modifies this`Lists, this`Timers, slots, timer`next, timer`idx, Timers`prev, Timers`idx
      ensures Valid() && Abs() == old(Abs())[timer := old(Remaining(timer))]
    {
      PushFront(timer);
      AtFrontKeeps(timer, timer.time_slot);
    }

    method TakeOut(timer: Timer)
      requires Valid() && timer in Timers
      modifies this`Lists, this`Timers, slots, (Timers - {timer})`next, (Timers - {timer})`prev, (Timers - {timer})`idx
      ensures Valid() && Timers == old(Timers) - {timer} && Abs() == old(Abs()) - {timer}
    {
      Unlink(timer);
      UnlinkedKeeps(timer);
    }

    // ---------- the operations, as steps of the abstract service ----------

    ghost method Record(e: Event<Timer>)
      requires Valid() && Abs() == Step(Run(map[], History), e)
      modifies this`History
      ensures Running() && History == old(History) + [e]
    {
      RunSnoc(map[], History, e);
      History := History + [e];
    }

    // epoll/timerwheel.h:83
    method AddTimer(timeout: int) returns (timer: Timer?)
      requires Running()
      modifies this`Lists, this`Timers, this`History, slots, Timers`prev, Timers`idx
      ensures Running() && (timer == null <==> timeout < 0)
      ensures timer == null ==> History == old(History)
      ensures timer != null ==> fresh(timer) && History == old(History) + [Add(timer, timeout)]
    {
      if timeout < 0 {
        return null;
      }
      timer := new Timer();
      timer.Init(timeout, cur_slot);
      Enter(timer);
      Record(Add(timer, timeout));
    }

    // epoll/timerwheel.h:109.  The caller hands over null or a live timer.
    method DelTimer(timer: Timer?)
      requires Running() && (timer != null ==> timer in Timers)
      modifies this`Lists, this`Timers, this`History, slots, Timers`next, Timers`prev, Timers`idx
      ensures Running()
      ensures History == if timer == null then old(History) else old(History) + [Delete(timer)]
    {
      if timer == null {
        return;
      }
      TakeOut(timer);
      Record(Delete(timer));
    }

    // epoll/timerwheel.h:208-211, for a timer that is in no list
    method SetAgain(timer: Timer, timeout: int)
      requires Valid() && timer !in Timers
      modifies timer
      ensures Valid() && Abs() == old(Abs()) && timer.next == null && timer.prev == null
      ensures 0 <= timer.time_slot < N && timer.rotation >= 0 && Remaining(timer) == TicksOf(timeout)
    {
      timer.prev := null;
      timer.next := null;
      timer.Init(timeout, cur_slot);
      forall u | u in Timers ensures TimerOk(u) {
        assert old(TimerOk(u));
      }
      forall i | 0 <= i < N ensures SlotOk(i) {
        assert old(SlotOk(i));
      }
    }

    // epoll/timerwheel.h:182
    method AdjustTimer(timeout: int, timer: Timer)
      requires Running() && timer in Timers
      modifies this`Lists, this`Timers, this`History, slots, Timers
      ensures Running() && History == old(History) + [Adjust(timer, timeout)]
    {
      TakeOut(timer);
      SetAgain(timer, timeout);
      Enter(timer);
      Record(Adjust(timer, timeout));
    }

    static lemma ModSmall(x: int)
      requires -N <= x < N
      ensures x % N == if x < 0 then x + N else x
    {
      if x < 0 {
        assert x % N == (x + N) % N;
      }
    }

    static lemma TickDistance(slot: int, cur: int)
      requires 0 <= slot < N && 0 <= cur < N
      ensures (slot - cur) % N == 0 <==> slot == cur
      ensures (slot - (cur + 1) % N) % N == if slot == cur then N - 1 else (slot - cur) % N - 1
    {
      ModSmall(slot - cur);
      var next := if cur + 1 == N then 0 else cur + 1;
      assert (cur + 1) % N == next;
      ModSmall(slot - next);
    }

    lemma PlacesAreUnique()
      requires Valid()
      ensures forall t :: t in Timers ==> t.idx >= 0
      ensures forall t, u :: t in Timers && u in Timers && t.time_slot == u.time_slot && t.idx == u.idx ==> t == u
    {
      forall t | t in Timers ensures t.idx >= 0 {
        assert TimerOk(t);
      }
      forall t, u | t in Timers && u in Timers && t.time_slot == u.time_slot && t.idx == u.idx ensures t == u {
        assert TimerOk(t) && TimerOk(u);
      }
    }

    // During a tick that started from the abstract state m: the first k timers
    // left in the current slot have lost one round, and the ones in due, which
    // were at zero, are gone.
    ghost predicate Ticked(m: map<Timer, int>, k: int, due: seq<Timer>)
      reads this`Timers, this`cur_slot, Timers
    {
      && Timers <= m.Keys
      && (forall t :: t in m && t !in Timers ==> t in due)
      && (forall t :: t in due ==> t in m && t !in Timers && m[t] == 0)
      && (forall t :: t in Timers ==> m[t] == Remaining(t) + if t.time_slot == cur_slot && t.idx < k then N else 0)
      && (forall i, j :: 0 <= i < j < |due| ==> due[i] != due[j])
    }

    lemma NothingTicked()
      requires Valid()
      ensures Ticked(Abs(), 0, [])
    {
      PlacesAreUnique();
    }

    method LoseRound(t: Timer)
      requires Valid() && t in Timers && t.rotation > 0
      modifies t`rotation
      ensures Valid() && t.rotation == old(t.rotation) - 1
    {
      t.rotation := t.rotation - 1;
      forall u | u in Timers ensures TimerOk(u) {
        assert old(TimerOk(u));
      }
      forall i | 0 <= i < N ensures SlotOk(i) {
        assert old(SlotOk(i));
      }
    }

    // epoll/timerwheel.h:146-150.  The timer still has a round to go.
    method Spare(t: Timer, ghost m: map<Timer, int>, ghost k: int, ghost due: seq<Timer>) returns (next: Timer?)
      requires Valid() && Ticked(m, k, due) && 0 <= k < |Lists[cur_slot]| && t == Lists[cur_slot][k] && t in Timers
      requires t.rotation > 0
      modifies t`rotation
      ensures Valid() && Ticked(m, k + 1, due)
      ensures next == if k + 1 < |Lists[cur_slot]| then Lists[cur_slot][k + 1] else null
    {
      assert t.time_slot == cur_slot && t.idx == k && TimerOk(t) by {
        assert SlotOk(cur_slot) && TimerOk(t);
      }
      PlacesAreUnique();
      LoseRound(t);
      next := t.next;
    }

    method Drop(t: Timer, ghost k: int) returns (next: Timer?)
      requires Valid() && 0 <= k < |Lists[cur_slot]| && t == Lists[cur_slot][k] && t in Timers
      modifies this`Lists, this`Timers, slots, (Timers - {t})`next, (Timers - {t})`prev, (Timers - {t})`idx
      ensures Valid() && Timers == old(Timers) - {t}
      ensures |Lists[cur_slot]| == |old(Lists[cur_slot])| - 1
      ensures next == if k < |Lists[cur_slot]| then Lists[cur_slot][k] else null
      ensures forall u :: u in Timers && u.time_slot == cur_slot ==> (u.idx < k <==> old(u.idx) < k)
    {
      assert SlotOk(cur_slot) && TimerOk(t);
      Unlink(t);
      UnlinkedKeeps(t);
      next := t.next;
    }

    // epoll/timerwheel.h:154-176.  The timer is called back and deleted.
    method Expire(t: Timer, ghost m: map<Timer, int>, ghost k: int, ghost due: seq<Timer>) returns (next: Timer?)
      requires Valid() && Ticked(m, k, due) && 0 <= k < |Lists[cur_slot]| && t == Lists[cur_slot][k] && t in Timers
      requires t.rotation == 0
      modifies this`Lists, this`Timers, this`Calls, slots, (Timers - {t})`next, (Timers - {t})`prev, (Timers - {t})`idx
      ensures Valid() && Ticked(m, k, due + [t]) && Calls == old(Calls) + [t]
      ensures |Lists[cur_slot]| == |old(Lists[cur_slot])| - 1
      ensures next == if k < |Lists[cur_slot]| then Lists[cur_slot][k] else null
    {
      assert t.time_slot == cur_slot && t.idx == k by {
        assert SlotOk(cur_slot);
      }
      Calls := Calls + [t];
      next := Drop(t, k);
    }

    lemma FrontOfSlot()
      requires Valid()
      ensures slots[cur_slot] == if Lists[cur_slot] == [] then null else Lists[cur_slot][0]
    {
      assert SlotOk(cur_slot);
    }

    lemma PlaceInSlot(k: int)
      requires Valid() && 0 <= k < |Lists[cur_slot]|
      ensures Lists[cur_slot][k] in Timers && Lists[cur_slot][k].rotation >= 0
    {
      assert SlotOk(cur_slot) && TimerOk(Lists[cur_slot][k]);
    }

    // epoll/timerwheel.h:140-178
    method WalkSlot() returns (ghost due: seq<Timer>)
      requires Valid()
      modifies this`Lists, this`Timers, this`Calls, slots, Timers
      ensures Valid() && Ticked(old(Abs()), |Lists[cur_slot]|, due) && Calls == old(Calls) + due
    {
      hide Ticked, SlotOk, TimerOk;
      due := [];
      NothingTicked();
      FrontOfSlot();
      var tmp := slots[cur_slot];
      ghost var k := 0;
      while tmp != null
        invariant Valid() && Ticked(old(Abs()), k, due) && Timers <= old(Timers)
        invariant 0 <= k <= |Lists[cur_slot]|
        invariant tmp == if k < |Lists[cur_slot]| then Lists[cur_slot][k] else null
        invariant Calls == old(Calls) + due
        decreases |Lists[cur_slot]| - k
      {
        PlaceInSlot(k);
        if tmp.rotation > 0 {
          tmp := Spare(tmp, old(Abs()), k, due);
          k := k + 1;
        } else {
          ghost var fired := tmp;
          tmp := Expire(tmp, old(Abs()), k, due);
          due := due + [fired];
        }
      }
    }

    ghost function RemainingAt(t: Timer, cur: int): int
      reads t
    {
      t.rotation * N + (t.time_slot - cur) % N
    }

    lemma WalkedTimer(m: map<Timer, int>, due: seq<Timer>, t: Timer)
      requires Valid() && Ticked(m, |Lists[cur_slot]|, due) && t in Timers
      ensures m[t] != 0 && RemainingAt(t, (cur_slot + 1) % N) == m[t] - 1
    {
      assert TimerOk(t);
      TickDistance(t.time_slot, cur_slot);
    }

    method TurnWheel() returns (ghost due: seq<Timer>)
      requires Valid()
      modifies this`Lists, this`Timers, this`Calls, this`cur_slot, slots, Timers
      ensures Valid() && Abs() == Step(old(Abs()), TimerSpec.Tick)
      ensures Calls == old(Calls) + due && (forall t :: t in due <==> t in Fired(old(Abs())))
      ensures forall i, j :: 0 <= i < j < |due| ==> due[i] != due[j]
    {
      ghost var m := Abs();
      due := WalkSlot();
      forall t | t in Timers ensures m[t] != 0 && RemainingAt(t, (cur_slot + 1) % N) == m[t] - 1 {
        WalkedTimer(m, due, t);
      }
      cur_slot := (cur_slot + 1) % N;
    }

    // epoll/timerwheel.h:138.  The callbacks made are those of the timers whose
    // time has come by the history of the wheel, one for each.
    method Tick() returns (ghost due: seq<Timer>)
      requires Running()
      modifies this`Lists, this`Timers, this`Calls, this`cur_slot, this`History, slots, Timers
      ensures Running() && History == old(History) + [TimerSpec.Tick]
      ensures Calls == old(Calls) + due && (forall t :: t in due <==> FiresAt(map[], History, |History| - 1, t))
      ensures forall i, j :: 0 <= i < j < |due| ==> due[i] != due[j]
    {
      due := TurnWheel();
      Record(TimerSpec.Tick);
      assert History[..|History| - 1] == old(History);
    }
  }
}
