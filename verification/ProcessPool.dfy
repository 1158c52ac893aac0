// How the parent of epoll/processpoolserver.h hands connections to its children.
module Dispatch {
  import opened Modular

  const DEAD := -1

  predicate Live(pids: seq<int>, i: int) {
    0 <= i < |pids| && pids[i] != DEAD
  }

  // the child at distance d from index c, around the end of the table
  predicate LiveAt(pids: seq<int>, c: int, d: int) {
    Live(pids, Wrap(c + d, |pids|))
  }

  ghost predicate DeadFor(pids: seq<int>, c: int, d: int) {
    forall e :: 0 <= e < d ==> !LiveAt(pids, c, e)
  }

  // i is the first live child from index c on.
  ghost predicate IsNext(pids: seq<int>, c: int, i: int) {
    Live(pids, i) && exists d :: 0 <= d < |pids| && i == Wrap(c + d, |pids|) && DeadFor(pids, c, d)
  }

  lemma DeadStretch(pids: seq<int>, c: int, d: int, k: int)
    requires 0 <= c < |pids| && 0 <= d <= |pids| && DeadFor(pids, c, d)
    ensures c <= k < c + d && k < |pids| ==> !Live(pids, k)
    ensures 0 <= k < c + d - |pids| ==> !Live(pids, k)
  {
    assert 0 <= k - c < d ==> !LiveAt(pids, c, k - c);
    assert 0 <= k + |pids| - c < d ==> !LiveAt(pids, c, k + |pids| - c);
  }

  // How many live children stand before index i.
  function Rank(pids: seq<int>, i: int): (r: nat)
    requires 0 <= i <= |pids|
    ensures r <= i
  {
    if i == 0 then 0 else Rank(pids, i - 1) + if Live(pids, i - 1) then 1 else 0
  }

  function LiveCount(pids: seq<int>): nat {
    Rank(pids, |pids|)
  }

  // The rank of the child whose turn it is when the search starts at c.
  function Turn(pids: seq<int>, c: int): nat
    requires 0 <= c < |pids|
  {
    if Rank(pids, c) == LiveCount(pids) then 0 else Rank(pids, c)
  }

  lemma {:induction false} RankOverDead(pids: seq<int>, i: int, j: int)
    requires 0 <= i <= j <= |pids| && forall k :: i <= k < j ==> !Live(pids, k)
    ensures Rank(pids, j) == Rank(pids, i)
    decreases j - i
  {
    if i < j {
      RankOverDead(pids, i, j - 1);
    }
  }

  lemma {:induction false} RankGrows(pids: seq<int>, i: int, j: int)
    requires 0 <= i <= j <= |pids|
    ensures Rank(pids, i) <= Rank(pids, j)
    ensures i < j && Live(pids, i) ==> Rank(pids, i) < Rank(pids, j)
    decreases j - i
  {
    if i < j {
      RankGrows(pids, i, j - 1);
    }
  }

  // Different live children have different ranks.
  lemma RankIsInjective(pids: seq<int>, i: int, j: int)
    requires Live(pids, i) && Live(pids, j) && Rank(pids, i) == Rank(pids, j)
    ensures i == j
  {
    if i < j {
      RankGrows(pids, i, j);
    } else if j < i {
      RankGrows(pids, j, i);
    }
  }

  // The search hands out the turn, and the next search gives the turn after it.
  lemma NextHasTheTurn(pids: seq<int>, c: int, i: int)
    requires 0 <= c < |pids| && IsNext(pids, c, i)
    ensures Rank(pids, i) == Turn(pids, c) < LiveCount(pids)
    ensures Turn(pids, Wrap(i + 1, |pids|)) == Wrap(Turn(pids, c) + 1, LiveCount(pids))
  {
    var d :| 0 <= d < |pids| && i == Wrap(c + d, |pids|) && DeadFor(pids, c, d);
    forall k
      ensures c <= k < c + d && k < |pids| ==> !Live(pids, k)
      ensures 0 <= k < c + d - |pids| ==> !Live(pids, k)
    {
      DeadStretch(pids, c, d, k);
    }
    RankGrows(pids, i, |pids|);
    RankGrows(pids, i + 1, |pids|);
    if c + d < |pids| {
      RankOverDead(pids, c, i);
    } else {
      RankOverDead(pids, c, |pids|);
      RankOverDead(pids, 0, i);
    }
  }

  // ---------- over a stretch of connections ----------

  // picks are the children chosen for successive connections, starting at
  // counter value c, while the table does not change.
  ghost predicate Picks(pids: seq<int>, c: int, picks: seq<int>)
    requires 0 <= c < |pids|
    decreases |picks|
  {
    picks != [] ==> IsNext(pids, c, picks[0]) && Picks(pids, Wrap(picks[0] + 1, |pids|), picks[1..])
  }

  // the counter after them
  function CounterAfter(pids: seq<int>, c: int, picks: seq<int>): int
    requires pids != []
  {
    if picks == [] then c else Wrap(picks[|picks| - 1] + 1, |pids|)
  }

  lemma {:induction false} OneMorePick(pids: seq<int>, c: int, picks: seq<int>, i: int)
    requires 0 <= c < |pids| && Picks(pids, c, picks) && IsNext(pids, CounterAfter(pids, c, picks), i)
    ensures Picks(pids, c, picks + [i])
    decreases |picks|
  {
    if picks == [] {
      assert (picks + [i])[1..] == [];
    } else {
      assert (picks + [i])[1..] == picks[1..] + [i];
      OneMorePick(pids, Wrap(picks[0] + 1, |pids|), picks[1..], i);
    }
  }

  // how far the turn is away from the child with rank r
  function Ahead(turn: nat, r: nat, k: nat): int {
    if r >= turn then r - turn else r - turn + k
  }

  // m connections over k children: the full rounds, and the rest.
  function Rounds(m: nat, k: nat): (r: (nat, nat))
    requires k > 0
    ensures r.1 < k
  {
    if m == 0 then (0, 0)
    else
      var (rounds, extra) := Rounds(m - 1, k);
      if extra + 1 == k then (rounds + 1, 0) else (rounds, extra + 1)
  }

  lemma {:induction false} RoundsMultiply(m: nat, k: nat)
    requires k > 0
    ensures var (rounds, extra) := Rounds(m, k); m == rounds * k + extra
  {
    if m > 0 {
      RoundsMultiply(m - 1, k);
    }
  }

  lemma {:induction false} FirstRound(m: nat, k: nat)
    requires m < k
    ensures Rounds(m, k) == (0, m)
  {
    if m > 0 {
      FirstRound(m - 1, k);
    }
  }

  // Over a stretch of connections each live child has had one in every round,
  // and the next ones in turn have had one more.
  lemma {:induction false} EachInTurn(pids: seq<int>, c: int, picks: seq<int>, child: int)
    requires 0 <= c < |pids| && Picks(pids, c, picks) && Live(pids, child)
    ensures LiveCount(pids) > 0
    ensures var k := LiveCount(pids); var (rounds, extra) := Rounds(|picks|, k);
      multiset(picks)[child] == rounds + if Ahead(Turn(pids, c), Rank(pids, child), k) < extra then 1 else 0
    decreases |picks|
  {
    RankGrows(pids, child, |pids|);
    if picks != [] {
      var i := picks[0];
      NextHasTheTurn(pids, c, i);
      EachInTurn(pids, Wrap(i + 1, |pids|), picks[1..], child);
      CountHead(picks, child);
      if Rank(pids, child) == Rank(pids, i) {
        RankIsInjective(pids, child, i);
      }
    } else {
      assert multiset(picks)[child] == 0;
      assert Ahead(Turn(pids, c), Rank(pids, child), LiveCount(pids)) >= 0 by {
        RankGrows(pids, c, |pids|);
      }
    }
  }

  lemma CountHead(picks: seq<int>, child: int)
    requires picks != []
    ensures multiset(picks)[child] == multiset(picks[1..])[child] + if picks[0] == child then 1 else 0
  {
    assert picks == [picks[0]] + picks[1..];
  }

  // While k children are alive, any k connections in a row go to all of them,
  // one each.
  lemma KInARow(pids: seq<int>, c: int, picks: seq<int>, child: int)
    requires 0 <= c < |pids| && Picks(pids, c, picks) && |picks| == LiveCount(pids) && Live(pids, child)
    ensures multiset(picks)[child] == 1
  {
    EachInTurn(pids, c, picks, child);
    RankGrows(pids, c, |pids|);
    FirstRound(LiveCount(pids) - 1, LiveCount(pids));
  }

  // Over any stretch of connections no live child gets more than one connection
  // more than another.
  lemma Fair(pids: seq<int>, c: int, picks: seq<int>, a: int, b: int)
    requires 0 <= c < |pids| && Picks(pids, c, picks) && Live(pids, a) && Live(pids, b)
    ensures multiset(picks)[a] <= multiset(picks)[b] + 1
  {
    EachInTurn(pids, c, picks, a);
    EachInTurn(pids, c, picks, b);
  }

  lemma AllDead(pids: seq<int>, c: int)
    requires 0 <= c < |pids| && DeadFor(pids, c, |pids|)
    ensures forall i :: !Live(pids, i)
  {
    forall i ensures !Live(pids, i) {
      DeadStretch(pids, c, |pids|, i);
    }
  }
}

// The parent process: its table of children and its two event handlers.
module ProcessPool {
  import opened Dispatch
  import opened Modular

  class Parent {
    const m_pid: array<int>
    var m_stop: bool
    var sub_process_counter: int

    ghost predicate Valid()
      reads this
    {
      0 < m_pid.Length && 0 <= sub_process_counter < m_pid.Length
    }

    // epoll/processpoolserver.h:74-100, 250; the children have been forked
    constructor (pids: seq<int>)
      requires pids != [] && forall i :: 0 <= i < |pids| ==> pids[i] > 0
      ensures Valid() && fresh(m_pid) && m_pid[..] == pids && !m_stop && sub_process_counter == 0
    {
      m_pid := new int[|pids|](i requires 0 <= i < |pids| => pids[i]);
      m_stop := false;
      sub_process_counter := 0;
    }

    // epoll/processpoolserver.h:269-287.  A connection goes to the first live
    // child from the counter on; without one the server stops.
    method Connect() returns (child: int)
      requires Valid()
      modifies this
      ensures Valid()
      ensures (exists i :: Live(m_pid[..], i)) ==>
        IsNext(m_pid[..], old(sub_process_counter), child) && m_stop == old(m_stop)
        && sub_process_counter == Wrap(child + 1, m_pid.Length)
      ensures (forall i :: !Live(m_pid[..], i)) ==>
        m_stop && child == -1 && sub_process_counter == old(sub_process_counter)
    {
      var i := sub_process_counter;
      ghost var d := 0;
      while true
        invariant sub_process_counter == old(sub_process_counter) && m_stop == old(m_stop)
        invariant 0 <= d < m_pid.Length && i == Wrap(sub_process_counter + d, m_pid.Length)
        invariant DeadFor(m_pid[..], sub_process_counter, d)
        decreases m_pid.Length - d
      {
        if m_pid[i] != DEAD {
          break;
        }
        assert !LiveAt(m_pid[..], sub_process_counter, d);
        WrapIsMod(i + 1, m_pid.Length);
        i := (i + 1) % m_pid.Length;
        d := d + 1;
        if i == sub_process_counter {
          break;
        }
      }
      if m_pid[i] == DEAD {
        AllDead(m_pid[..], sub_process_counter);
        m_stop := true;
        return -1;
      }
      assert Live(m_pid[..], i);
      WrapIsMod(i + 1, m_pid.Length);
      sub_process_counter := (i + 1) % m_pid.Length;
      return i;
    }

    // epoll/processpoolserver.h:264-290.  A stretch of connections during which
    // no child exits.
    method Connections(m: nat) returns (picks: seq<int>)
      requires Valid() && exists i :: Live(m_pid[..], i)
      modifies this
      ensures Valid() && m_stop == old(m_stop)
      ensures |picks| == m && Picks(m_pid[..], old(sub_process_counter), picks)
    {
      ghost var pids, c := m_pid[..], sub_process_counter;
      picks := [];
      while |picks| < m
        invariant |picks| <= m && Valid() && m_stop == old(m_stop) && m_pid[..] == pids
        invariant Picks(pids, c, picks) && sub_process_counter == CounterAfter(pids, c, picks)
      {
        var child := Connect();
        OneMorePick(pids, c, picks, child);
        picks := picks + [child];
      }
    }

    // epoll/processpoolserver.h:306-331.  The children that have exited are
    // struck off, and the server stops when none is left.
    method ChildrenExited(exited: seq<int>)
      requires Valid() && forall k :: 0 <= k < |exited| ==> exited[k] > 0
      modifies this`m_stop, m_pid
      ensures forall i :: 0 <= i < m_pid.Length ==> m_pid[i] == if old(m_pid[i]) in exited then DEAD else old(m_pid[i])
      ensures m_stop <==> forall i :: !Live(m_pid[..], i)
    {
      var k := 0;
      while k < |exited|
        invariant 0 <= k <= |exited|
        invariant forall i :: 0 <= i < m_pid.Length ==>
          m_pid[i] == if old(m_pid[i]) in exited[..k] then DEAD else old(m_pid[i])
      {
        var pid := exited[k];
        var i := 0;
        while i < m_pid.Length
          invariant 0 <= i <= m_pid.Length
          invariant forall j :: 0 <= j < i ==>
            m_pid[j] == if old(m_pid[j]) in exited[..k + 1] then DEAD else old(m_pid[j])
          invariant forall j :: i <= j < m_pid.Length ==>
            m_pid[j] == if old(m_pid[j]) in exited[..k] then DEAD else old(m_pid[j])
        {
          assert exited[..k + 1] == exited[..k] + [pid];
          if m_pid[i] == pid {
            m_pid[i] := DEAD;
          }
          i := i + 1;
        }
        k := k + 1;
      }
      assert exited[..k] == exited;
      ghost var after := m_pid[..];
      m_stop := true;
      var i := 0;
      while i < m_pid.Length
        invariant 0 <= i <= m_pid.Length && m_pid[..] == after
        invariant m_stop <==> forall j :: 0 <= j < i ==> !Live(after, j)
      {
        assert m_pid[i] == after[i] && (Live(after, i) <==> m_pid[i] != DEAD);
        if m_pid[i] != DEAD {
          m_stop := false;
        }
        i := i + 1;
      }
    }
  }
}
