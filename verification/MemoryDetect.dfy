// The allocation tracker of memoryleak/memorydetect.cc: every block that is
// handed out is linked into a circular list behind a sentinel.
module MemoryDetect {
  const DEBUG_NEW_MAGIC := 0x4442474E
  const SIZE_T := 0x1_0000_0000_0000_0000

  // sizeof(new_ptr_list_t) with 64-bit pointers
  const HEADER_SIZE: bv64 := 232

  function Align(s: bv64): bv64 {
    (s + 15) & !15
  }

  // Align(s) is the least multiple of 16 that is not below s, unless the sum
  // wraps around.
  lemma AlignIsLeast(s: bv64)
    requires s <= 0xffff_ffff_ffff_fff0
    ensures Align(s) & 15 == 0 && s <= Align(s) <= s + 15
  {
  }

  lemma AlignedSum(a: bv64, b: bv64)
    requires a & 15 == 0 && b & 15 == 0
    ensures (a + b) & 15 == 0
  {
  }

  // The pointer for the user behind a header, and the header in front of such a
  // pointer.
  function PointerBehind(address: bv64): bv64 {
    address + Align(HEADER_SIZE)
  }

  function HeaderOf(usr_ptr: bv64): bv64 {
    usr_ptr - Align(HEADER_SIZE)
  }

  // The pointer is aligned, leads back to the header, and leaves room for it,
  // but less than 16 bytes more than that.
  lemma PointerFits(address: bv64)
    requires address & 15 == 0
    ensures PointerBehind(address) & 15 == 0 && HeaderOf(PointerBehind(address)) == address
    ensures HEADER_SIZE <= PointerBehind(address) - address < HEADER_SIZE + 16
  {
    AlignIsLeast(HEADER_SIZE);
    hide Align;
    AlignedSum(address, Align(HEADER_SIZE));
  }

  // What comes of a delete.
  datatype Answer = Done | InvalidPointer | WrongForm

  // The header in front of a block.
  class Block {
    const address: bv64
    const size: nat
    const isArray: bool
    var next: Block?
    var prev: Block?
    var magic: int
    ghost var idx: int  // position among the live blocks

    constructor (address: bv64, size: nat, isArray: bool)
      ensures this.address == address && this.size == size && this.isArray == isArray && magic == DEBUG_NEW_MAGIC
    {
      this.address, this.size, this.isArray, magic := address, size, isArray, DEBUG_NEW_MAGIC;
      next, prev := null, null;
    }
  }

  function TotalSize(blocks: seq<Block>): nat {
    if blocks == [] then 0 else TotalSize(blocks[..|blocks| - 1]) + blocks[|blocks| - 1].size
  }

  lemma {:induction false} TotalSizeJoins(a: seq<Block>, b: seq<Block>)
    ensures TotalSize(a + b) == TotalSize(a) + TotalSize(b)
  {
    if b == [] {
      assert a + b == a;
    } else {
      assert (a + b)[..|a + b| - 1] == a + b[..|b| - 1];
      TotalSizeJoins(a, b[..|b| - 1]);
    }
  }

  lemma TotalAppend(blocks: seq<Block>, b: Block)
    ensures TotalSize(blocks + [b]) == TotalSize(blocks) + b.size
  {
    assert (blocks + [b])[..|blocks|] == blocks;
  }

  lemma TotalWithout(blocks: seq<Block>, k: int)
    requires 0 <= k < |blocks|
    ensures TotalSize(blocks[..k] + blocks[k + 1..]) == TotalSize(blocks) - blocks[k].size
  {
    hide TotalSize;
    var front, b, rest := blocks[..k], blocks[k], blocks[k + 1..];
    assert blocks == front + [b] + rest;
    TotalSizeJoins(front + [b], rest);
    TotalAppend(front, b);
    TotalSizeJoins(front, rest);
  }

  // Wrapping around early or late makes no difference.
  lemma WrapTwice(t: int, s: int)
    ensures (t % SIZE_T + s) % SIZE_T == (t + s) % SIZE_T
  {
  }

  class Tracker {
    const head: Block             // new_ptr_list
    var total_mem_alloc: int      // a size_t
    ghost var Live: seq<Block>    // the blocks in use, in the order of allocation
    ghost var Blocks: set<Block>  // the same as a set
    ghost var Allocations: nat
    ghost var Frees: nat

    // The block at position i of the circle, the sentinel at both ends.
    ghost function At(i: int): Block
      reads this`Live
    {
      if 0 <= i < |Live| then Live[i] else head
    }

    ghost predicate BlockOk(b: Block)
      reads this`Live, b
    {
      && 0 <= b.idx < |Live| && Live[b.idx] == b && b != head
      && b.next == At(b.idx + 1) && b.prev == At(b.idx - 1)
    }

    ghost predicate Linked()
      reads this`Live, this`Blocks, head, Blocks
    {
      && head !in Blocks && head.next == At(0) && head.prev == At(|Live| - 1)
      && (forall b {:trigger BlockOk(b)} :: b in Blocks ==> BlockOk(b))
      && (forall i :: 0 <= i < |Live| ==> Live[i] in Blocks && Live[i].idx == i)
    }

    ghost predicate Valid()
      reads this, head, Blocks
    {
      Linked() && total_mem_alloc == TotalSize(Live) % SIZE_T && |Live| == Allocations - Frees
    }

    constructor ()
      ensures Valid() && fresh(head) && Live == [] && Blocks == {}
    {
      head := new Block(0, 0, false);
      total_mem_alloc := 0;
      Live, Blocks, Allocations, Frees := [], {}, 0, 0;
      new;
      head.next, head.prev := head, head;
    }

    // ---------- allocation ----------

    twostate predicate Appended(new b: Block)
      reads this, head, Blocks
    {
      && b !in old(Blocks) && b != head && Blocks == old(Blocks) + {b} && Live == old(Live) + [b]
      && b.idx == |old(Live)| && b.next == head && b.prev == old(head.prev)
      && head.prev == b && head.next == (if old(head.prev) == head then b else old(head.next))
      && (forall c :: c in old(Blocks) ==>
        && c.idx == old(c.idx) && c.prev == old(c.prev)
        && c.next == if c == old(head.prev) then b else old(c.next))
    }

    twostate lemma AppendedBlock(new b: Block, new c: Block)
      requires old(Linked()) && Appended(b) && c in Blocks
      ensures BlockOk(c)
    {
      if c != b {
        assert old(BlockOk(c));
      }
    }

    twostate lemma AppendedKeeps(new b: Block)
      requires old(Linked()) && Appended(b)
      ensures Linked()
    {
      forall c | c in Blocks ensures BlockOk(c) {
        AppendedBlock(b, c);
      }
    }

    // memoryleak/memorydetect.cc:75.  Running out of memory ends the program.
    // address is what malloc has returned.
    method AllocMem(size: nat, isArray: bool, address: bv64) returns (ptr: Block, usr_ptr: bv64)
      requires Valid()
      modifies this, head`next, head`prev, Blocks`next
      ensures Valid() && fresh(ptr) && ptr.address == address && ptr.size == size && ptr.isArray == isArray
      ensures usr_ptr == PointerBehind(address)
      ensures Live == old(Live) + [ptr] && Blocks == old(Blocks) + {ptr}
      ensures total_mem_alloc == (old(total_mem_alloc) + size) % 0x1_0000_0000_0000_0000
      ensures ptr.magic == DEBUG_NEW_MAGIC && Allocations == old(Allocations) + 1 && Frees == old(Frees)
    {
      hide PointerBehind, TotalSize, Linked;
      ptr := new Block(address, size, isArray);
      usr_ptr := PointerBehind(address);
      Link(ptr);
      WrapTwice(TotalSize(old(Live)), size);
      total_mem_alloc := (total_mem_alloc + size) % SIZE_T;
      Allocations := Allocations + 1;
    }

    // memoryleak/memorydetect.cc:98-101
    method Link(ptr: Block)
      requires Linked() && ptr !in Blocks && ptr != head
      modifies this`Live, this`Blocks, head`next, head`prev, ptr`next, ptr`prev, ptr`idx, Blocks`next
      ensures Linked() && Live == old(Live) + [ptr] && Blocks == old(Blocks) + {ptr}
      ensures TotalSize(Live) == TotalSize(old(Live)) + ptr.size
    {
      assert |Live| > 0 ==> BlockOk(Live[|Live| - 1]);
      ptr.prev := head.prev;
      ptr.next := head;
      head.prev.next := ptr;
      head.prev := ptr;
      ptr.idx := |Live|;
      Live := Live + [ptr];
      Blocks := Blocks + {ptr};
      AppendedKeeps(ptr);
      TotalAppend(old(Live), ptr);
    }

    // ---------- release ----------

    twostate predicate Removed(new b: Block)
      reads this, head, Blocks
    {
      && b in old(Blocks) && Blocks == old(Blocks) - {b} && 0 <= old(b.idx) < |old(Live)|
      && Live == old(Live)[..old(b.idx)] + old(Live)[old(b.idx) + 1..]
      && head.next == (if old(head.next) == b then old(b.next) else old(head.next))
      && head.prev == (if old(head.prev) == b then old(b.prev) else old(head.prev))
      && (forall c :: c in Blocks ==>
        && c.idx == old(c.idx) - (if old(c.idx) > old(b.idx) then 1 else 0)
        && c.next == (if old(c.next) == b then old(b.next) else old(c.next))
        && c.prev == (if old(c.prev) == b then old(b.prev) else old(c.prev)))
    }

    twostate lemma RemovedBlock(new b: Block, new c: Block)
      requires old(Linked()) && Removed(b) && c in Blocks
      ensures BlockOk(c)
    {
      assert old(BlockOk(b) && BlockOk(c));
    }

    twostate lemma RemovedKeeps(new b: Block)
      requires old(Linked()) && Removed(b)
      ensures Linked()
    {
      assert old(BlockOk(b));
      forall c | c in Blocks ensures BlockOk(c) {
        RemovedBlock(b, c);
      }
    }

    // memoryleak/memorydetect.cc:117.  After the second and the third answer
    // the program ends.  ptr is the header in front of the user's pointer; one
    // that has the magic number belongs to a live block.
    method FreePointer(ptr: Block?, isArray: bool) returns (answer: Answer)
      requires Valid() && (ptr != null && ptr.magic == DEBUG_NEW_MAGIC ==> ptr in Blocks)
      modifies this, head`next, head`prev, Blocks
      ensures Valid()
      ensures answer == if ptr == null then Done
                        else if old(ptr.magic) != DEBUG_NEW_MAGIC then InvalidPointer
                        else if ptr.isArray != isArray then WrongForm else Done
      ensures Allocations == old(Allocations) && Frees == old(Frees) + if ptr == null || !answer.Done? then 0 else 1
      ensures ptr == null || !answer.Done? ==> Live == old(Live) && Blocks == old(Blocks)
      ensures ptr != null && answer.Done? ==>
        && 0 <= old(ptr.idx) < |old(Live)| && old(Live[ptr.idx]) == ptr && Blocks == old(Blocks) - {ptr}
        && Live == old(Live)[..old(ptr.idx)] + old(Live)[old(ptr.idx) + 1..]
      ensures forall b :: b in old(Blocks) ==> b.magic == if b == ptr && answer.Done? then 0 else old(b.magic)
    {
      if ptr == null {
        return Done;
      }
      if ptr.magic != DEBUG_NEW_MAGIC {
        return InvalidPointer;
      }
      if isArray != ptr.isArray {
        return WrongForm;
      }
      WrapTwice(TotalSize(Live), -(ptr.size as int));
      total_mem_alloc := (total_mem_alloc - ptr.size) % SIZE_T;
      Unlink(ptr);
      Frees := Frees + 1;
      return Done;
    }

    // As long as its memory is not given out again, freeing a block a second
    // time is found out.
    method FreeTwice(ptr: Block, form: bool) returns (first: Answer, second: Answer)
      requires Valid() && ptr in Blocks && ptr.magic == DEBUG_NEW_MAGIC && form == ptr.isArray
      modifies this, head`next, head`prev, Blocks
      ensures Valid() && first.Done? && second.InvalidPointer? && Frees == old(Frees) + 1
    {
      first := FreePointer(ptr, form);
      second := FreePointer(ptr, form);
    }

    // memoryleak/memorydetect.cc:156-158
    method Detach(ptr: Block)
      requires Linked() && ptr in Blocks
      modifies this`Live, this`Blocks, head`next, head`prev, Blocks`next, Blocks`prev, Blocks`idx, ptr`magic
      ensures Removed(ptr) && ptr.magic == 0
    {
      Neighbours(ptr);
      hide Linked, BlockOk, At;
      ptr.magic := 0;
      ptr.prev.next := ptr.next;
      ptr.next.prev := ptr.prev;
      Blocks := Blocks - {ptr};
      forall c | c in Blocks { c.idx := c.idx - if c.idx > ptr.idx then 1 else 0; }
      Live := Live[..ptr.idx] + Live[ptr.idx + 1..];
    }

    method Unlink(ptr: Block)
      requires Linked() && ptr in Blocks
      modifies this`Live, this`Blocks, head`next, head`prev, Blocks`next, Blocks`prev, Blocks`idx, ptr`magic
      ensures Linked() && Blocks == old(Blocks) - {ptr} && ptr.magic == 0
      ensures 0 <= old(ptr.idx) < |old(Live)| && old(Live[ptr.idx]) == ptr
      ensures Live == old(Live)[..old(ptr.idx)] + old(Live)[old(ptr.idx) + 1..]
      ensures TotalSize(Live) == TotalSize(old(Live)) - ptr.size
    {
      assert BlockOk(ptr);
      Detach(ptr);
      RemovedKeeps(ptr);
      TotalWithout(old(Live), old(ptr.idx));
    }

    lemma Neighbours(b: Block)
      requires Linked() && b in Blocks
      ensures BlockOk(b) && 0 <= b.idx < |Live| && Live[b.idx] == b && b != head && head !in Blocks
      ensures b.next != b && b.prev != b
      ensures b.next != head ==> b.next in Blocks && b.next.prev == b
      ensures b.prev != head ==> b.prev in Blocks && b.prev.next == b
      ensures (head.next == b <==> b.prev == head) && (head.prev == b <==> b.next == head)
      ensures forall c :: c in Blocks ==> (c.next == b <==> c == b.prev) && (c.prev == b <==> c == b.next)
    {
      assert BlockOk(b);
      assert b.idx > 0 ==> BlockOk(Live[b.idx - 1]);
      assert b.idx + 1 < |Live| ==> BlockOk(Live[b.idx + 1]);
      forall c | c in Blocks ensures (c.next == b <==> c == b.prev) && (c.prev == b <==> c == b.next) {
        assert BlockOk(c);
      }
    }

    // ---------- the reports ----------

    // memoryleak/memorydetect.cc:169
    method CheckLeaks() returns (leak_cnt: int)
      requires Valid()
      ensures leak_cnt == |Live| == Allocations - Frees
    {
      leak_cnt := 0;
      var ptr := head.next;
      while ptr != head
        invariant 0 <= leak_cnt <= |Live| && ptr == At(leak_cnt)
        decreases |Live| - leak_cnt
      {
        assert BlockOk(Live[leak_cnt]);
        ptr := ptr.next;
        leak_cnt := leak_cnt + 1;
      }
    }

    // The blocks in use whose header has been overwritten.
    ghost function Damaged(): set<Block>
      reads this, Blocks
    {
      set b | b in Blocks && b.magic != DEBUG_NEW_MAGIC
    }

    ghost function DamagedBefore(k: int): set<Block>
      reads this, Blocks
    {
      set b | b in Damaged() && b.idx < k
    }

    lemma NextDamaged(k: int)
      requires Linked() && 0 <= k < |Live|
      ensures Live[k] in Blocks && Live[k].next == At(k + 1) && Live[k] !in DamagedBefore(k)
      ensures DamagedBefore(k + 1) ==
        if Live[k].magic != DEBUG_NEW_MAGIC then DamagedBefore(k) + {Live[k]} else DamagedBefore(k)
    {
      assert BlockOk(Live[k]);
      forall b | b in Damaged() && b.idx == k ensures b == Live[k] {
        assert BlockOk(b);
      }
    }

    lemma DamagedInAll()
      requires Linked()
      ensures DamagedBefore(0) == {} && DamagedBefore(|Live|) == Damaged()
    {
      assert forall b :: b in Damaged() ==> BlockOk(b);
    }

    // memoryleak/memorydetect.cc:200
    method CheckMemCorruption() returns (corrupt_cnt: int)
      requires Valid()
      ensures corrupt_cnt == |Damaged()|
    {
      DamagedInAll();
      hide Damaged, DamagedBefore, BlockOk;
      corrupt_cnt := 0;
      var ptr := head.next;
      ghost var k, found: set<Block> := 0, {};
      while ptr != head
        invariant 0 <= k <= |Live| && ptr == At(k)
        invariant found == DamagedBefore(k) && corrupt_cnt == |found|
        decreases |Live| - k
      {
        NextDamaged(k);
        if ptr.magic != DEBUG_NEW_MAGIC {
          corrupt_cnt := corrupt_cnt + 1;
          found := found + {ptr};
        }
        ptr := ptr.next;
        k := k + 1;
      }
    }

    // Reading the circle backward from the sentinel: n steps back from it stands
    // the block allocated as the n-th from the end, and then the sentinel again.
    ghost function Back(n: nat): Block?
      requires Valid() && n <= |Live| + 1
      reads this, head, Blocks
      ensures Back(n) == At(|Live| - n)
    {
      if n == 0 then head
      else
        assert n > 1 ==> BlockOk(Live[|Live| - n + 1]);
        Back(n - 1).prev
    }

    ghost function Forth(n: nat): Block?
      requires Valid() && n <= |Live| + 1
      reads this, head, Blocks
      ensures Forth(n) == At(n - 1)
    {
      if n == 0 then head
      else
        assert n > 1 ==> BlockOk(Live[n - 2]);
        Forth(n - 1).next
    }
  }
}

// Several threads that allocate and free.  The list is changed under the mutex,
// and so is the total by a free; an allocation adds to the total afterwards,
// without the mutex, in a load and a store.
module TotalProtocol {
  import opened MemoryDetect
  import opened Options
  import Runs

  datatype Thread =
    | Idle
    | Listed(size: nat)             // lines 98-101 are done, line 113 is not
    | Loaded(size: nat, seen: int)  // within line 113
    | Freeing(size: nat, seen: int) // within line 155, holds the mutex

  // live is the sum of the sizes of the blocks in the list.
  datatype State = State(threads: map<int, Thread>, mutex: Option<int>, live: int, total: int)

  datatype Step =
    | List(t: int, size: nat) | Load(t: int) | Store(t: int)
    | FreeLoad(t: int, size: nat) | FreeStore(t: int)

  predicate CanStep(s: State, step: Step) {
    step.t in s.threads &&
    match step
    case List(t, _) => s.threads[t].Idle? && s.mutex.None?
    case Load(t) => s.threads[t].Listed?
    case Store(t) => s.threads[t].Loaded?
    case FreeLoad(t, size) => s.threads[t].Idle? && s.mutex.None? && size <= s.live
    case FreeStore(t) => s.threads[t].Freeing?
  }

  function DoStep(s: State, step: Step): State
    requires CanStep(s, step)
  {
    match step
    case List(t, size) => s.(threads := s.threads[t := Listed(size)], live := s.live + size)
    case Load(t) => s.(threads := s.threads[t := Loaded(s.threads[t].size, s.total)])
    case Store(t) =>
      s.(threads := s.threads[t := Idle], total := (s.threads[t].seen + s.threads[t].size) % SIZE_T)
    case FreeLoad(t, size) =>
      s.(threads := s.threads[t := Freeing(size, s.total)], mutex := Some(t), live := s.live - size)
    case FreeStore(t) =>
      s.(threads := s.threads[t := Idle], mutex := None, total := (s.threads[t].seen - s.threads[t].size) % SIZE_T)
  }

  ghost predicate AllIdle(s: State) {
    forall t :: t in s.threads ==> s.threads[t].Idle?
  }

  ghost predicate InitState(s: State) {
    AllIdle(s) && s.mutex.None? && s.live == 0 && s.total == 0
  }

  function Next(s: State, step: Step): Option<State> {
    if CanStep(s, step) then Some(DoStep(s, step)) else None
  }

  function Exec(s: State, steps: seq<Step>): Option<State> {
    Runs.Exec(Next, s, steps)
  }

  predicate AtMostOne(s: State) {
    Runs.AtMostOne(s.threads)
  }

  // What the total lacks, seen from one thread.
  ghost predicate Accounted(s: State, t: int)
    requires t in s.threads
  {
    match s.threads[t]
    case Idle => s.total == s.live % SIZE_T
    case Listed(size) => s.total == (s.live - size) % SIZE_T
    case Loaded(size, seen) => seen == s.total == (s.live - size) % SIZE_T
    case Freeing(size, seen) => seen == s.total == (s.live + size) % SIZE_T
  }

  lemma AccountedKept(s: State, step: Step)
    requires AtMostOne(s) && CanStep(s, step) && Accounted(s, step.t)
    ensures Accounted(DoStep(s, step), step.t)
  {
    match s.threads[step.t]
    case Loaded(size, seen) => WrapTwice(s.live - size, size);
    case Freeing(size, seen) => WrapTwice(s.live + size, -(size as int));
    case _ =>
  }

  lemma {:induction false} OneThreadIsAccounted(s: State, steps: seq<Step>)
    requires InitState(s) && AtMostOne(s) && Exec(s, steps).Some?
    ensures var r := Exec(s, steps).value; r.threads.Keys == s.threads.Keys
    ensures var r := Exec(s, steps).value; forall t :: t in r.threads ==> Accounted(r, t)
    ensures s.threads == map[] ==> Exec(s, steps).value == s
    decreases |steps|
  {
    if steps != [] {
      var before := steps[..|steps| - 1];
      OneThreadIsAccounted(s, before);
      AccountedKept(Exec(s, before).value, steps[|steps| - 1]);
    }
  }

  // Two threads that both load before either stores: one addition is lost.
  lemma TwoThreadsCanLose(s: State, t: int, u: int) returns (steps: seq<Step>)
    requires InitState(s) && t in s.threads && u in s.threads && t != u
    ensures Exec(s, steps).Some?
    ensures var r := Exec(s, steps).value; AllIdle(r) && r.total != r.live % SIZE_T
  {
    Runs.NoSteps(Next, s);
    hide Runs.Exec;
    steps := Runs.Add(Next, s, [], List(t, 1));
    steps := Runs.Add(Next, s, steps, List(u, 1));
    steps := Runs.Add(Next, s, steps, Load(t));
    steps := Runs.Add(Next, s, steps, Load(u));
    steps := Runs.Add(Next, s, steps, Store(t));
    steps := Runs.Add(Next, s, steps, Store(u));
  }

  // So the total is the sum of the sizes whenever all threads rest, in every
  // run, if and only if at most one thread allocates and frees.
  lemma TotalIsRightIffOneThread(s: State)
    requires InitState(s)
    ensures (forall steps :: Exec(s, steps).Some? && AllIdle(Exec(s, steps).value) ==>
              Exec(s, steps).value.total == Exec(s, steps).value.live % SIZE_T)
       <==> AtMostOne(s)
  {
    if AtMostOne(s) {
      forall steps | Exec(s, steps).Some? && AllIdle(Exec(s, steps).value)
        ensures Exec(s, steps).value.total == Exec(s, steps).value.live % SIZE_T
      {
        OneThreadIsAccounted(s, steps);
        if t :| t in Exec(s, steps).value.threads {
          assert Accounted(Exec(s, steps).value, t);
        } else {
          assert forall t :: t in s.threads.Keys <==> t in {};
          assert s.threads == map[];
        }
      }
    } else {
      var t, u :| t in s.threads && u in s.threads && t != u;
      var steps := TwoThreadsCanLose(s, t, u);
      assert Exec(s, steps).Some?;
    }
  }
}
