/**
 What every run of the allocator keeps, and the simple allocator it refines.
 */
module HeapRuns {
  import opened BlockTable

  // ---------------------------------------------------------------------
  // Block accounting
  // ---------------------------------------------------------------------

  /** The number of free blocks below `hi`. */
  function FreeUpTo(t: Table, hi: nat): (r: nat)
    requires hi <= |t|
    ensures r <= hi
  {
    if hi == 0 then 0 else FreeUpTo(t, hi - 1) + if IsFree(t[hi - 1]) then 1 else 0
  }

  function FreeCount(t: Table): nat {
    FreeUpTo(t, |t|)
  }

  /** The total length of the allocations that start below `hi`. */
  function LiveUpTo(live: map<nat, nat>, hi: nat): nat {
    if hi == 0 then 0 else LiveUpTo(live, hi - 1) + if hi - 1 in live then live[hi - 1] else 0
  }

  /** No allocation straddles position `hi`. */
  predicate Boundary(live: map<nat, nat>, hi: nat) {
    forall s :: s in live ==> s + live[s] <= hi || hi <= s
  }

  lemma {:induction false} AlongChain(t: Table, live: map<nat, nat>, s: nat, k: nat)
    requires Represents(t, live) && s in live && 1 <= k <= live[s]
    ensures Chain(t, s, live[s])
    ensures FreeUpTo(t, s + k) == FreeUpTo(t, s)
    ensures LiveUpTo(live, s + k) == LiveUpTo(live, s) + live[s]
  {
    assert Chain(t, s, live[s]);
    var i := s + k - 1;
    assert t[i] == ChainEntry(i - s, live[s]);
    ChainEntryFlags(k - 1, live[s]);
    FirstIsStart(t, live, i);
    if k > 1 { AlongChain(t, live, s, k - 1); }
  }

  lemma {:induction false} AccountUpTo(t: Table, live: map<nat, nat>, hi: nat)
    requires Represents(t, live) && hi <= |t| && Boundary(live, hi)
    ensures FreeUpTo(t, hi) + LiveUpTo(live, hi) == hi
  {
    hide Chain;
    if hi > 0 {
      var last := hi - 1;
      if x :| Covers(live, x, last) {
        forall s | s in live ensures s + live[s] <= x || x <= s {
          if s < x { LiveDisjoint(t, live, s, x); }
        }
        AccountUpTo(t, live, x);
        AlongChain(t, live, x, live[x]);
      } else {
        assert forall s :: s in live ==> !Covers(live, s, last);
        FirstIsStart(t, live, last);
        AccountUpTo(t, live, last);
      }
    }
  }

  /** Free blocks plus the blocks of live allocations are all the blocks there are. */
  lemma Account(t: Table, live: map<nat, nat>)
    requires Represents(t, live)
    ensures FreeCount(t) + LiveUpTo(live, |t|) == |t|
  {
    forall s | s in live ensures s + live[s] <= |t| {
      assert Chain(t, s, live[s]);
    }
    AccountUpTo(t, live, |t|);
  }

  lemma {:induction false} LiveUpToAdd(live: map<nat, nat>, s: nat, n: nat, hi: nat)
    requires s !in live
    ensures LiveUpTo(live[s := n], hi) == LiveUpTo(live, hi) + if s < hi then n else 0
  {
    if hi > 0 { LiveUpToAdd(live, s, n, hi - 1); }
  }

  lemma {:induction false} FreeCountPositive(t: Table, hi: nat)
    requires hi <= |t|
    ensures FreeUpTo(t, hi) > 0 <==> exists i :: 0 <= i < hi && IsFree(t[i])
  {
    if hi > 0 { FreeCountPositive(t, hi - 1); }
  }

  // ---------------------------------------------------------------------
  // One step
  // ---------------------------------------------------------------------

  /** Taking any free run: the map gains one entry and the pool loses n blocks. */
  lemma TakeAt(t: Table, s: nat, n: nat)
    requires WellFormed(t) && n >= 1 && FreeRun(t, s, n)
    ensures var u := MarkTaken(t, s, n);
      && WellFormed(u) && |u| == |t|
      && s !in Live(t) && Live(u) == Live(t)[s := n]
      && FreeCount(u) + n == FreeCount(t)
  {
    var u := MarkTaken(t, s, n);
    TakeKeeps(t, Live(t), s, n);
    LiveIsUnique(u, Live(t)[s := n]);
    LiveUpToAdd(Live(t), s, n, |t|);
    Account(t, Live(t));
    Account(u, Live(u));
  }

  /** A successful request takes the run the scan answers. */
  lemma TakeStep(t: Table, n: nat)
    requires WellFormed(t) && n >= 1 && InBounds(t, n) && StartBlock(t, n) >= 0
    ensures var (u, s) := MallocBlocks(t, n);
      && WellFormed(u) && |u| == |t|
      && s !in Live(t) && Live(u) == Live(t)[s := n]
      && s + n <= |t|
      && FreeCount(u) + n == FreeCount(t)
  {
    AnswerIsFree(t, n);
    TakeAt(t, StartBlock(t, n), n);
  }

  /** No request, not even an empty or a refused one, breaks the table. */
  lemma MallocKeeps(t: Table, n: nat)
    requires WellFormed(t) && InBounds(t, n)
    ensures WellFormed(MallocBlocks(t, n).0)
  {
    var s := StartBlock(t, n);
    if s >= 0 {
      if n == 0 {
        assert MarkTaken(t, s, 0) == t;
      } else {
        TakeStep(t, n);
      }
    }
  }

  /** Freeing a live start: the map loses that entry and the pool gains its blocks. */
  lemma FreeStep(t: Table, s: nat)
    requires WellFormed(t) && s in Live(t)
    ensures var u := MarkFree(t, s);
      && WellFormed(u) && |u| == |t|
      && Live(u) == Live(t) - {s}
      && FreeCount(u) == FreeCount(t) + Live(t)[s]
  {
    var u, live := MarkFree(t, s), Live(t);
    MarkFreeLength(t, s);
    FreeKeeps(t, live, s);
    LiveIsUnique(u, live - {s});
    FreeAccount(t, u, live, s);
  }

  lemma FreeAccount(t: Table, u: Table, live: map<nat, nat>, s: nat)
    requires Represents(t, live) && s in live
    requires Represents(u, live - {s}) && |u| == |t|
    ensures FreeCount(u) == FreeCount(t) + live[s]
  {
    assert Chain(t, s, live[s]);
    LiveUpToAdd(live - {s}, s, live[s], |t|);
    assert (live - {s})[s := live[s]] == live;
    Account(t, live);
    Account(u, live - {s});
  }

  /** A one-block request succeeds whenever the pool is not empty. */
  lemma OneBlockAvailable(t: Table)
    requires FreeCount(t) > 0
    ensures InBounds(t, 1) && StartBlock(t, 1) >= 0
  {
    FreeCountPositive(t, |t|);
    OneBlockScan(t);
  }

  // ---------------------------------------------------------------------
  // Runs
  // ---------------------------------------------------------------------

  datatype HeapOp = Malloc(blocks: nat) | Free(block: nat)

  /** Requests must leave marking inside the table; only live starts are freed. */
  predicate Enabled(t: Table, op: HeapOp) {
    match op
    case Malloc(n) => n >= 1 && InBounds(t, n)
    case Free(s) => s in Live(t)
  }

  function Step(t: Table, op: HeapOp): Table
    requires Enabled(t, op)
  {
    match op
    case Malloc(n) => MallocBlocks(t, n).0
    case Free(s) => MarkFree(t, s)
  }

  predicate Legal(t: Table, ops: seq<HeapOp>)
    decreases |ops|
  {
    ops == [] || (Enabled(t, ops[0]) && Legal(Step(t, ops[0]), ops[1..]))
  }

  function Run(t: Table, ops: seq<HeapOp>): Table
    requires Legal(t, ops)
    decreases |ops|
  {
    if ops == [] then t else Run(Step(t, ops[0]), ops[1..])
  }

  /**
   The reference allocator, which has no table: it hands out the lowest run of
   unused blocks, declines when there is none, and forgets what is freed.
   */
  ghost predicate AllocatorStep(total: nat, live: map<nat, nat>, op: HeapOp, after: map<nat, nat>) {
    match op
    case Malloc(n) =>
      if exists s: nat :: Unused(live, total, s, n) then
        exists s: nat ::
          && Unused(live, total, s, n)
          && (forall x: nat :: x < s ==> !Unused(live, total, x, n))
          && after == live[s := n]
      else
        after == live
    case Free(s) => s in live && after == live - {s}
  }

  ghost predicate AllocatorRun(total: nat, live: map<nat, nat>, ops: seq<HeapOp>, after: map<nat, nat>)
    decreases |ops|
  {
    if ops == [] then after == live
    else exists mid ::
      AllocatorStep(total, live, ops[0], mid) && AllocatorRun(total, mid, ops[1..], after)
  }

  lemma StepRefines(t: Table, op: HeapOp)
    requires WellFormed(t) && Enabled(t, op)
    ensures var u := Step(t, op);
      WellFormed(u) && |u| == |t| && AllocatorStep(|t|, Live(t), op, Live(u))
  {
    match op
    case Free(s) => FreeStep(t, s);
    case Malloc(n) => MallocRefines(t, n);
  }

  lemma MallocRefines(t: Table, n: nat)
    requires WellFormed(t) && n >= 1 && InBounds(t, n)
    ensures var u := MallocBlocks(t, n).0;
      WellFormed(u) && |u| == |t| && AllocatorStep(|t|, Live(t), Malloc(n), Live(u))
  {
    var live, s := Live(t), StartBlock(t, n);
    forall x: nat ensures FreeRun(t, x, n) <==> Unused(live, |t|, x, n) {
      FreeRunIff(t, live, x, n);
    }
    StartBlockIsFirstFit(t, n);
    if s >= 0 {
      AnswerIsFree(t, n);
      TakeStep(t, n);
      assert Unused(live, |t|, s, n);
      assert forall x: nat :: x < s ==> !Unused(live, |t|, x, n);
    } else {
      assert forall x: nat :: !Unused(live, |t|, x, n);
    }
  }

  /**
   Every legal run keeps the table a union of disjoint chains, keeps the block
   account, and does to the allocation map what the reference allocator does.
   */
  lemma {:induction false} RunRefines(t: Table, ops: seq<HeapOp>)
    requires WellFormed(t) && Legal(t, ops)
    ensures var u := Run(t, ops);
      && WellFormed(u) && |u| == |t|
      && FreeCount(u) + LiveUpTo(Live(u), |u|) == |t|
      && AllocatorRun(|t|, Live(t), ops, Live(u))
    decreases |ops|
  {
    if ops == [] {
      Account(t, Live(t));
    } else {
      StepRefines(t, ops[0]);
      RunRefines(Step(t, ops[0]), ops[1..]);
    }
  }

  /** The table heap_create leaves stands for no allocation at all. */
  lemma FreshTable(t: Table)
    requires forall i :: 0 <= i < |t| ==> t[i] == FREE
    ensures WellFormed(t) && Live(t) == map[] && FreeCount(t) == |t|
  {
    assert Represents(t, map[]);
    LiveIsUnique(t, map[]);
    Account(t, map[]);
    NothingLive(|t|);
  }

  lemma {:induction false} NothingLive(hi: nat)
    ensures LiveUpTo(map[], hi) == 0
  {
    if hi > 0 { NothingLive(hi - 1); }
  }
}
