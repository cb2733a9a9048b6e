/**
 process_malloc and process_free: the allocation table of each process over the
 one kernel heap, in any interleaving.
 */
module ProcessHeap {
  import opened StatusCodes
  import opened Bits
  import opened BlockTable
  import opened HeapRuns
  import opened BlockHeap
  import opened Kheap

  const MAX_PROGRAM_ALLOCATIONS := 1024

  /** Pool base, block table and the allocation tables of all processes. */
  datatype System = System(saddr: Word, table: Table, procs: seq<seq<Word>>)

  // ---------------------------------------------------------------------
  // Steps
  // ---------------------------------------------------------------------

  /** process_find_free_allocation_index: the first empty slot at or after i. */
  function FreeSlot(a: seq<Word>, i: nat): (r: int)
    requires i <= |a|
    ensures r >= 0 ==> i <= r < |a| && a[r] == 0
    ensures r < 0 ==> r == -ENOMEM
    ensures forall j :: i <= j < (if r < 0 then |a| else r) ==> a[j] != 0
    decreases |a| - i
  {
    if i == |a| then -ENOMEM else if a[i] == 0 then i else FreeSlot(a, i + 1)
  }

  function Join(a: seq<Word>, slot: nat, ptr: Word): seq<Word>
    requires slot < |a|
  {
    a[slot := ptr]
  }

  /** process_allocation_unjoin. */
  function Unjoin(a: seq<Word>, ptr: Word): seq<Word> {
    seq(|a|, i requires 0 <= i < |a| => if a[i] == ptr then 0 else a[i])
  }

  predicate GoodPool(saddr: Word, t: Table) {
    0 < saddr && saddr + BLOCK_SIZE * |t| <= WORD_LIMIT
  }

  /** process_malloc: the table, the slots and the answer. A full slot table loses the block. */
  function ProcessMalloc(saddr: Word, t: Table, a: seq<Word>, size: Word): (Table, seq<Word>, Word)
    requires GoodPool(saddr, t) && InBounds(t, BlocksFor(size))
  {
    StartBlockRange(t, BlocksFor(size));
    var (u, s) := MallocBlocks(t, BlocksFor(size));
    if s < 0 then (u, a, 0)
    else
      var ptr := saddr + BLOCK_SIZE * s;
      var slot := FreeSlot(a, 0);
      if slot < 0 then (u, a, 0) else (u, Join(a, slot, ptr), ptr)
  }

  /** process_free: only a recorded pointer is given back. */
  function ProcessFree(saddr: Word, t: Table, a: seq<Word>, ptr: Word): (Table, seq<Word>)
    requires ptr in a ==> saddr <= ptr
  {
    if ptr in a then (MarkFree(t, (ptr - saddr) / BLOCK_SIZE), Unjoin(a, ptr)) else (t, a)
  }

  // ---------------------------------------------------------------------
  // Invariant
  // ---------------------------------------------------------------------

  predicate IsLiveStart(saddr: Word, t: Table, ptr: Word) {
    saddr <= ptr && (ptr - saddr) % BLOCK_SIZE == 0 && (ptr - saddr) / BLOCK_SIZE in Live(t)
  }

  predicate Records(procs: seq<seq<Word>>, p: nat, i: nat, ptr: Word) {
    p < |procs| && i < |procs[p]| && procs[p][i] == ptr && ptr != 0
  }

  /** Recorded pointers are starts of live allocations, and no two slots anywhere hold the same one. */
  ghost predicate Inv(sys: System) {
    && GoodPool(sys.saddr, sys.table) && WellFormed(sys.table)
    && (forall p, i, ptr :: Records(sys.procs, p, i, ptr) ==> IsLiveStart(sys.saddr, sys.table, ptr))
    && (forall p, i, q, j, ptr :: Records(sys.procs, p, i, ptr) && Records(sys.procs, q, j, ptr) ==> p == q && i == j)
  }

  /** What processes do, and what the rest of the kernel does with the same heap. */
  datatype Event =
    | ProcMalloc(p: nat, size: Word)
    | ProcFree(p: nat, ptr: Word)
    | KernelMalloc(blocks: nat)
    | KernelFree(block: nat)

  /**
   Requests of at least one block that marking can serve; null only to a process
   with no empty slot; the kernel frees live allocations no process has recorded.
   */
  ghost predicate Enabled(sys: System, e: Event) {
    && GoodPool(sys.saddr, sys.table)
    && match e
       case ProcMalloc(p, size) =>
         p < |sys.procs| && BlocksFor(size) >= 1 && InBounds(sys.table, BlocksFor(size))
       case ProcFree(p, ptr) =>
         p < |sys.procs| && (ptr != 0 || 0 !in sys.procs[p]) && (ptr in sys.procs[p] ==> sys.saddr <= ptr)
       case KernelMalloc(n) => n >= 1 && InBounds(sys.table, n)
       case KernelFree(s) => s in Live(sys.table) && Unrecorded(sys, s)
  }

  ghost predicate Unrecorded(sys: System, s: nat) {
    forall p, i, ptr :: Records(sys.procs, p, i, ptr) ==> ptr != sys.saddr + BLOCK_SIZE * s
  }

  function Step(sys: System, e: Event): System
    requires Enabled(sys, e)
  {
    match e
    case ProcMalloc(p, size) =>
      var (u, a, _) := ProcessMalloc(sys.saddr, sys.table, sys.procs[p], size);
      sys.(table := u, procs := sys.procs[p := a])
    case ProcFree(p, ptr) =>
      var (u, a) := ProcessFree(sys.saddr, sys.table, sys.procs[p], ptr);
      sys.(table := u, procs := sys.procs[p := a])
    case KernelMalloc(n) => sys.(table := MallocBlocks(sys.table, n).0)
    case KernelFree(s) => sys.(table := MarkFree(sys.table, s))
  }

  lemma NewRecord(sys: System, after: System, p: nat, slot: nat, s: nat, n: nat, added: Word)
    requires Inv(sys) && p < |sys.procs| && slot < |sys.procs[p]| && sys.procs[p][slot] == 0
    requires WellFormed(after.table) && |after.table| == |sys.table| && after.saddr == sys.saddr
    requires s < |sys.table| && s !in Live(sys.table) && Live(after.table) == Live(sys.table)[s := n]
    requires added == sys.saddr + BLOCK_SIZE * s && after.procs == sys.procs[p := Join(sys.procs[p], slot, added)]
    ensures Inv(after)
  {
    hide Live, WellFormed;
    forall q, j, ptr | Records(after.procs, q, j, ptr)
      ensures (q == p && j == slot && ptr == added) || (Records(sys.procs, q, j, ptr) && ptr != added)
    {
      if !(q == p && j == slot) {
        assert Records(sys.procs, q, j, ptr);
        assert IsLiveStart(sys.saddr, sys.table, ptr);
      }
    }
  }

  lemma MallocKeepsInv(sys: System, p: nat, size: Word)
    requires Inv(sys) && Enabled(sys, ProcMalloc(p, size))
    ensures Inv(Step(sys, ProcMalloc(p, size)))
  {
    hide Live, WellFormed, StartBlock, MarkTaken;
    var n, s, after := BlocksFor(size), StartBlock(sys.table, BlocksFor(size)), Step(sys, ProcMalloc(p, size));
    StartBlockRange(sys.table, n);
    if s < 0 {
      assert after == sys;
    } else {
      TakeStep(sys.table, n);
      var slot := FreeSlot(sys.procs[p], 0);
      if slot < 0 {
        assert after.procs == sys.procs;
      } else {
        NewRecord(sys, after, p, slot, s, n, sys.saddr + BLOCK_SIZE * s);
      }
    }
  }

  lemma FreeKeepsInv(sys: System, p: nat, ptr: Word)
    requires Inv(sys) && Enabled(sys, ProcFree(p, ptr))
    ensures Inv(Step(sys, ProcFree(p, ptr)))
  {
    hide Live, WellFormed, MarkFree;
    var after, a := Step(sys, ProcFree(p, ptr)), sys.procs[p];
    if ptr !in a {
      assert after == sys;
    } else {
      var i :| 0 <= i < |a| && a[i] == ptr;
      assert Records(sys.procs, p, i, ptr);
      var s := (ptr - sys.saddr) / BLOCK_SIZE;
      FreeStep(sys.table, s);
      forall q, j, other | Records(after.procs, q, j, other)
        ensures Records(sys.procs, q, j, other) && other != ptr
      {
        assert Records(sys.procs, q, j, other);
        assert q == p ==> other != ptr;
      }
    }
  }

  lemma KernelKeepsInv(sys: System, e: Event)
    requires Inv(sys) && Enabled(sys, e) && (e.KernelMalloc? || e.KernelFree?)
    ensures Inv(Step(sys, e))
  {
    hide Live, WellFormed, MarkFree, StartBlock, MarkTaken;
    match e
    case KernelMalloc(n) => if StartBlock(sys.table, n) >= 0 { TakeStep(sys.table, n); }
    case KernelFree(s) => FreeStep(sys.table, s);
  }

  lemma StepKeepsInv(sys: System, e: Event)
    requires Inv(sys) && Enabled(sys, e)
    ensures Inv(Step(sys, e))
  {
    hide *;
    match e
    case ProcMalloc(p, size) => MallocKeepsInv(sys, p, size);
    case ProcFree(p, ptr) => FreeKeepsInv(sys, p, ptr);
    case _ => KernelKeepsInv(sys, e);
  }

  // ---------------------------------------------------------------------
  // Runs
  // ---------------------------------------------------------------------

  ghost predicate Legal(sys: System, events: seq<Event>)
    decreases |events|
  {
    events == [] || (Enabled(sys, events[0]) && Legal(Step(sys, events[0]), events[1..]))
  }

  function Run(sys: System, events: seq<Event>): System
    requires Legal(sys, events)
    decreases |events|
  {
    if events == [] then sys else Run(Step(sys, events[0]), events[1..])
  }

  /** The invariant holds after every interleaving of any number of processes. */
  lemma {:induction false} EveryInterleaving(sys: System, events: seq<Event>)
    requires Inv(sys) && Legal(sys, events)
    ensures Inv(Run(sys, events))
    decreases |events|
  {
    hide Step, Enabled, Inv;
    if events != [] {
      StepKeepsInv(sys, events[0]);
      EveryInterleaving(Step(sys, events[0]), events[1..]);
    }
  }

  /** Freeing a pointer that another process holds, say a stale copy of one re-issued to it, does nothing. */
  lemma ForeignFree(sys: System, p: nat, q: nat, j: nat, ptr: Word)
    requires Inv(sys) && p < |sys.procs| && p != q && Records(sys.procs, q, j, ptr)
    ensures Enabled(sys, ProcFree(p, ptr)) && Step(sys, ProcFree(p, ptr)) == sys
  {
    if i :| 0 <= i < |sys.procs[p]| && sys.procs[p][i] == ptr {
      assert Records(sys.procs, p, i, ptr);
    }
    assert ptr !in sys.procs[p];
    assert sys.procs[p := sys.procs[p]] == sys.procs;
  }

  /** After a process frees a pointer it holds, freeing it again does nothing. */
  lemma DoubleFree(sys: System, p: nat, ptr: Word)
    requires Inv(sys) && ptr != 0 && Enabled(sys, ProcFree(p, ptr))
    ensures var once := Step(sys, ProcFree(p, ptr));
      Enabled(once, ProcFree(p, ptr)) && Step(once, ProcFree(p, ptr)) == once
  {
    hide Live, WellFormed, MarkFree;
    var once := Step(sys, ProcFree(p, ptr));
    FreeKeepsInv(sys, p, ptr);
    assert ptr !in once.procs[p];
    assert once.procs[p := once.procs[p]] == once.procs;
  }

  /** A request that finds blocks and a slot: what is taken, and where it is recorded. */
  lemma MallocTakes(sys: System, p: nat, size: Word)
    requires Inv(sys) && Enabled(sys, ProcMalloc(p, size))
    ensures var (u, a, ptr) := ProcessMalloc(sys.saddr, sys.table, sys.procs[p], size);
      && (ptr != 0 <==> StartBlock(sys.table, BlocksFor(size)) >= 0 && 0 in sys.procs[p])
      && (ptr != 0 ==>
        && IsLiveStart(sys.saddr, u, ptr) && (ptr - sys.saddr) / BLOCK_SIZE !in Live(sys.table)
        && Live(u) == Live(sys.table)[(ptr - sys.saddr) / BLOCK_SIZE := BlocksFor(size)]
        && FreeCount(u) + BlocksFor(size) == FreeCount(sys.table)
        && |a| == |sys.procs[p]| && exists i ::
             && 0 <= i < |a| && sys.procs[p][i] == 0 && a[i] == ptr
             && (forall j :: 0 <= j < i ==> sys.procs[p][j] != 0)
             && (forall j :: 0 <= j < |a| && j != i ==> a[j] == sys.procs[p][j]))
      && (ptr == 0 ==> a == sys.procs[p])
  {
    hide Live, WellFormed, StartBlock, MarkTaken, FreeCount;
    var n, slot := BlocksFor(size), FreeSlot(sys.procs[p], 0);
    StartBlockRange(sys.table, n);
    if StartBlock(sys.table, n) >= 0 {
      TakeStep(sys.table, n);
      if slot >= 0 { assert sys.procs[p][slot] == 0; }
    }
  }

  /** Freeing a recorded pointer gives its blocks back, empties its slot and keeps every other. */
  lemma FreeReleases(sys: System, p: nat, i: nat, ptr: Word)
    requires Inv(sys) && Records(sys.procs, p, i, ptr)
    ensures var after, s := Step(sys, ProcFree(p, ptr)), (ptr - sys.saddr) / BLOCK_SIZE;
      && s in Live(sys.table) && Live(after.table) == Live(sys.table) - {s}
      && FreeCount(after.table) == FreeCount(sys.table) + Live(sys.table)[s]
      && after.procs == sys.procs[p := sys.procs[p][i := 0]] && after.saddr == sys.saddr
  {
    hide Live, WellFormed, MarkFree, FreeCount;
    assert ptr in sys.procs[p];
    assert IsLiveStart(sys.saddr, sys.table, ptr);
    FreeStep(sys.table, (ptr - sys.saddr) / BLOCK_SIZE);
    forall j | 0 <= j < |sys.procs[p]| ensures sys.procs[p][j] == ptr <==> j == i {
      if sys.procs[p][j] == ptr { assert Records(sys.procs, p, j, ptr); }
    }
    assert Unjoin(sys.procs[p], ptr) == sys.procs[p][i := 0];
  }

  /** process_free of what process_malloc answered restores every byte of the table and every slot. */
  lemma MallocFreeRestores(sys: System, p: nat, size: Word)
    requires Inv(sys) && Enabled(sys, ProcMalloc(p, size))
    ensures var (_, _, ptr) := ProcessMalloc(sys.saddr, sys.table, sys.procs[p], size);
      var after := Step(sys, ProcMalloc(p, size));
      ptr != 0 ==> Enabled(after, ProcFree(p, ptr)) && Step(after, ProcFree(p, ptr)) == sys
  {
    hide Live, WellFormed, StartBlock, MarkTaken, MarkFree, FreeCount;
    var (u, a, ptr) := ProcessMalloc(sys.saddr, sys.table, sys.procs[p], size);
    var after := Step(sys, ProcMalloc(p, size));
    MallocTakes(sys, p, size);
    MallocKeepsInv(sys, p, size);
    if ptr != 0 {
      var i :| 0 <= i < |a| && sys.procs[p][i] == 0 && a[i] == ptr
        && (forall j :: 0 <= j < |a| && j != i ==> a[j] == sys.procs[p][j]);
      FreeReleases(after, p, i, ptr);
      assert a[i := 0] == sys.procs[p];
      assert sys.procs[p := a][p := sys.procs[p]] == sys.procs;
      MallocThenFree(sys.table, BlocksFor(size));
    }
  }

  predicate InPool(sys: System, ptr: Word) {
    sys.saddr <= ptr < sys.saddr + BLOCK_SIZE * |sys.table|
  }

  /**
   What process_free hands on to the heap is an address in the pool, unless null is
   freed by a process that has an empty slot: null matches that slot.
   */
  lemma FreesInPoolIff(sys: System, p: nat, ptr: Word)
    requires Inv(sys) && p < |sys.procs|
    ensures (ptr in sys.procs[p] ==> InPool(sys, ptr)) <==> ptr != 0 || 0 !in sys.procs[p]
  {
    hide WellFormed;
    if ptr != 0 && ptr in sys.procs[p] {
      var i :| 0 <= i < |sys.procs[p]| && sys.procs[p][i] == ptr;
      assert Records(sys.procs, p, i, ptr);
    }
  }

  /**
   The blocks the heap takes for a process are recorded by no process, and null is
   returned for them, if and only if the process has no empty slot.
   */
  lemma BlocksLostIff(sys: System, p: nat, size: Word)
    requires Inv(sys) && Enabled(sys, ProcMalloc(p, size))
    requires StartBlock(sys.table, BlocksFor(size)) >= 0
    ensures var after, s := Step(sys, ProcMalloc(p, size)), StartBlock(sys.table, BlocksFor(size));
      && s in Live(after.table)
      && (Unrecorded(after, s) <==> 0 !in sys.procs[p])
      && (ProcessMalloc(sys.saddr, sys.table, sys.procs[p], size).2 == 0 <==> 0 !in sys.procs[p])
      && (0 !in sys.procs[p] ==> after.procs == sys.procs)
  {
    hide Live, WellFormed, StartBlock, MarkTaken;
    var n, s, slot := BlocksFor(size), StartBlock(sys.table, BlocksFor(size)), FreeSlot(sys.procs[p], 0);
    var after := Step(sys, ProcMalloc(p, size));
    TakeStep(sys.table, n);
    if slot < 0 {
      assert sys.procs[p := sys.procs[p]] == sys.procs;
      forall q, i, ptr | Records(sys.procs, q, i, ptr) ensures ptr != sys.saddr + BLOCK_SIZE * s {
        assert IsLiveStart(sys.saddr, sys.table, ptr);
      }
    } else {
      assert Records(after.procs, p, slot, sys.saddr + BLOCK_SIZE * s);
    }
  }

  /**
   A request that rounds to no block is recorded but not live: the invariant
   survives a request if and only if it is for at least one block, is refused by
   the heap, or finds no slot.
   */
  lemma MallocKeepsInvIff(sys: System, p: nat, size: Word)
    requires Inv(sys) && p < |sys.procs| && InBounds(sys.table, BlocksFor(size))
    ensures var (u, a, _) := ProcessMalloc(sys.saddr, sys.table, sys.procs[p], size);
      Inv(sys.(table := u, procs := sys.procs[p := a])) <==>
        BlocksFor(size) >= 1 || StartBlock(sys.table, BlocksFor(size)) < 0 || FreeSlot(sys.procs[p], 0) < 0
  {
    hide Live, WellFormed, StartBlock;
    var t, s, slot := sys.table, StartBlock(sys.table, BlocksFor(size)), FreeSlot(sys.procs[p], 0);
    if BlocksFor(size) >= 1 {
      MallocKeepsInv(sys, p, size);
    } else {
      StartBlockRange(t, 0);
      if s < 0 {
        assert sys.procs[p := sys.procs[p]] == sys.procs;
      } else {
        assert MarkTaken(t, s, 0) == t;
        EmptyAnswerNotLive(t);
        if slot < 0 {
          assert sys.procs[p := sys.procs[p]] == sys.procs;
        } else {
          var ptr: Word := sys.saddr + BLOCK_SIZE * s;
          var procs := sys.procs[p := Join(sys.procs[p], slot, ptr)];
          assert Records(procs, p, slot, ptr) && !IsLiveStart(sys.saddr, t, ptr);
        }
      }
    }
  }

  /** Size 0 on a fresh heap of one block, asked by a process with one empty slot. */
  lemma EmptyRequestBreaks()
    ensures var sys := System(BLOCK_SIZE, [FREE], [[0]]);
      && Inv(sys) && InBounds(sys.table, BlocksFor(0))
      && var (u, a, _) := ProcessMalloc(sys.saddr, sys.table, sys.procs[0], 0);
         !Inv(sys.(table := u, procs := sys.procs[0 := a]))
  {
    var sys := System(BLOCK_SIZE, [FREE], [[0]]);
    FreshTable(sys.table);
    assert StartBlock(sys.table, 0) == Scan(sys.table, 0, 1, 0) == 0;
    assert FreeSlot(sys.procs[0], 0) == 0;
    MallocKeepsInvIff(sys, 0, 0);
  }

  lemma EmptyAnswerNotLive(t: Table)
    requires WellFormed(t) && StartBlock(t, 0) >= 0
    ensures StartBlock(t, 0) !in Live(t)
  {
    var s := StartBlock(t, 0);
    assert s in Live(t) ==> Chain(t, s, Live(t)[s]);
    StartBlockIsFirstFit(t, 0);
    FreeRunIff(t, Live(t), s, 1);
  }

  // ---------------------------------------------------------------------
  // The code
  // ---------------------------------------------------------------------

  class Process {
    const allocations: array<Word>

    constructor ()
      ensures fresh(allocations) && allocations.Length == 1024
      ensures forall i :: 0 <= i < allocations.Length ==> allocations[i] == 0
    {
      allocations := new Word[MAX_PROGRAM_ALLOCATIONS](_ => 0);
    }

    /** process_find_free_allocation_index. */
    method FindFreeAllocationIndex() returns (res: int)
      ensures res == FreeSlot(allocations[..], 0)
    {
      res := -ENOMEM;
      for i := 0 to allocations.Length
        invariant res == -ENOMEM && FreeSlot(allocations[..], i) == FreeSlot(allocations[..], 0)
      {
        if allocations[i] == 0 {
          return i;
        }
      }
    }

    /** process_malloc; the block is zero-filled. */
    method Malloc(k: Kernel, size: Word) returns (ptr: Word)
      requires k.heap.entries as object != allocations
      requires k.Valid() && size <= WORD_LIMIT - BLOCK_SIZE
      requires InBounds(k.Table(), BlocksFor(size))
      modifies k`ram, k.heap.entries, allocations
      ensures k.Valid() && GoodPool(k.heap.saddr, old(k.Table()))
      ensures ProcessMalloc(k.heap.saddr, old(k.Table()), old(allocations[..]), size) == (k.Table(), allocations[..], ptr)
      ensures ptr != 0 ==> Filled(old(k.ram), k.ram, ptr, size, 0)
      ensures ptr != 0 && size > 0 ==>
        && k.heap.InPool(ptr) && Aligned(ptr) && k.heap.Block(ptr) !in Live(old(k.Table()))
        && Live(k.Table()) == Live(old(k.Table()))[k.heap.Block(ptr) := BlocksFor(size)]
      ensures ptr != 0 ==> exists i ::
        && 0 <= i < allocations.Length && old(allocations[i]) == 0
        && (forall j :: 0 <= j < i ==> old(allocations[j]) != 0)
        && allocations[..] == old(allocations[..])[i := ptr]
      ensures ptr == 0 ==> allocations[..] == old(allocations[..])
    {
      hide Live, StartBlock, WellFormed, MarkTaken;
      BlocksForIs(size);
      if size > 0 && StartBlock(k.Table(), BlocksFor(size)) >= 0 { TakeStep(k.Table(), BlocksFor(size)); }
      ghost var slots := allocations[..];
      ptr := k.Kzalloc(size);
      assert allocations[..] == slots;
      if ptr == 0 {
        return 0;
      }
      var index := FindFreeAllocationIndex();
      if index < 0 {
        return 0;
      }
      allocations[index] := ptr;
    }

    /** process_is_process_pointer. */
    method IsProcessPointer(ptr: Word) returns (found: bool)
      ensures found <==> ptr in allocations[..]
    {
      for i := 0 to allocations.Length
        invariant ptr !in allocations[..i]
      {
        if allocations[i] == ptr {
          return true;
        }
      }
      assert allocations[..allocations.Length] == allocations[..];
      found := false;
    }

    /** process_allocation_unjoin. */
    method AllocationUnjoin(ptr: Word)
      modifies allocations
      ensures allocations[..] == Unjoin(old(allocations[..]), ptr)
    {
      for i := 0 to allocations.Length
        invariant forall j :: 0 <= j < i ==>
          allocations[j] == if old(allocations[j]) == ptr then 0 else old(allocations[j])
        invariant forall j :: i <= j < allocations.Length ==> allocations[j] == old(allocations[j])
      {
        if allocations[i] == ptr {
          allocations[i] := 0;
        }
      }
    }

    /** process_free, of anything that is not recorded or lies in the pool. */
    method Free(k: Kernel, ptr: Word)
      requires k.heap.entries as object != allocations
      requires ptr in allocations[..] ==> k.heap.InPool(ptr)
      modifies k.heap.entries, allocations
      ensures ProcessFree(k.heap.saddr, old(k.Table()), old(allocations[..]), ptr) == (k.Table(), allocations[..])
      ensures old(k.Valid()) && (ptr in old(allocations[..]) ==> k.heap.Block(ptr) in Live(old(k.Table()))) ==> k.Valid()
      ensures ptr !in old(allocations[..]) ==> k.Table() == old(k.Table())
      ensures old(k.Valid()) && ptr in old(allocations[..]) && k.heap.Block(ptr) in Live(old(k.Table())) ==>
        && Live(k.Table()) == Live(old(k.Table())) - {k.heap.Block(ptr)}
        && FreeCount(k.Table()) == FreeCount(old(k.Table())) + Live(old(k.Table()))[k.heap.Block(ptr)]
      ensures forall i :: 0 <= i < allocations.Length ==>
        allocations[i] == if old(allocations[i]) == ptr then 0 else old(allocations[i])
    {
      hide Live, WellFormed, MarkFree, FreeCount;
      if k.Valid() && ptr in allocations[..] && k.heap.Block(ptr) in Live(k.Table()) {
        FreeStep(k.Table(), k.heap.Block(ptr));
      }
      var mine := IsProcessPointer(ptr);
      if !mine {
        return;
      }
      AllocationUnjoin(ptr);
      k.Kfree(ptr);
    }
  }
}
