/**
 The heap's block table as a value.

 One flag byte describes each 4096-byte block. An allocation of n blocks is a
 chain of n bytes: the first carries IS_FIRST, all but the last carry HAS_NEXT.
 This module gives the table operations of heap.c as functions, the allocation
 map a table stands for, and what every run of the allocator keeps.
 */
module BlockTable {
  import opened StatusCodes

  const FREE: bv8 := 0x00
  const TAKEN: bv8 := 0x01
  const HAS_NEXT: bv8 := 0x80
  const IS_FIRST: bv8 := 0x40

  type Table = seq<bv8>

  /** heap_get_entry_type: the low four bits say whether a block is free. */
  predicate IsFree(e: bv8) {
    e & 0x0f == FREE
  }

  predicate HasNext(e: bv8) {
    e & HAS_NEXT != 0
  }

  predicate IsFirst(e: bv8) {
    e & IS_FIRST != 0
  }

  // ---------------------------------------------------------------------
  // What a table stands for
  // ---------------------------------------------------------------------

  /** The flag byte of block number k of an allocation of n blocks. */
  function ChainEntry(k: nat, n: nat): bv8 {
    TAKEN | (if k == 0 then IS_FIRST else 0) | (if k + 1 < n then HAS_NEXT else 0)
  }

  /** Blocks s .. s+n are exactly the flag chain of one allocation. */
  ghost predicate Chain(t: Table, s: nat, n: nat) {
    && 1 <= n && s + n <= |t|
    && forall i :: s <= i < s + n ==> t[i] == ChainEntry(i - s, n)
  }

  predicate Covers(live: map<nat, nat>, s: nat, i: nat) {
    s in live && s <= i < s + live[s]
  }

  /** The table is the union of the chains of `live`, and free everywhere else. */
  ghost predicate Represents(t: Table, live: map<nat, nat>) {
    && (forall s :: s in live ==> Chain(t, s, live[s]))
    && (forall i :: 0 <= i < |t| ==> t[i] == FREE || exists s :: Covers(live, s, i))
  }

  /** The length of the chain that starts at block s, read off the flags. */
  function ChainLength(t: Table, s: nat): nat
    requires s < |t|
    decreases |t| - s
  {
    if HasNext(t[s]) && s + 1 < |t| then 1 + ChainLength(t, s + 1) else 1
  }

  /** The allocations recorded in a table: start block to length. */
  function Live(t: Table): map<nat, nat> {
    map s: nat | 0 <= s < |t| && IsFirst(t[s]) :: ChainLength(t, s)
  }

  ghost predicate WellFormed(t: Table) {
    Represents(t, Live(t))
  }

  lemma ChainEntryFlags(k: nat, n: nat)
    ensures !IsFree(ChainEntry(k, n)) && ChainEntry(k, n) != FREE
    ensures IsFirst(ChainEntry(k, n)) <==> k == 0
    ensures HasNext(ChainEntry(k, n)) <==> k + 1 < n
  {
  }

  lemma {:induction false} ChainLengthIs(t: Table, s: nat, n: nat, k: nat)
    requires Chain(t, s, n) && k < n
    ensures ChainLength(t, s + k) == n - k
    decreases n - k
  {
    ChainEntryFlags(k, n);
    assert t[s + k] == ChainEntry(s + k - s, n);
    if k + 1 < n { ChainLengthIs(t, s, n, k + 1); }
  }

  /** A start block carries IS_FIRST and no block inside a chain does. */
  lemma FirstIsStart(t: Table, live: map<nat, nat>, s: nat)
    requires Represents(t, live) && s < |t|
    ensures IsFirst(t[s]) <==> s in live
  {
    if s in live {
      ChainEntryFlags(0, live[s]);
      assert t[s] == ChainEntry(s - s, live[s]);
    } else if t[s] != FREE {
      var x :| Covers(live, x, s);
      ChainEntryFlags(s - x, live[x]);
      assert t[s] == ChainEntry(s - x, live[x]);
    }
  }

  lemma LiveAt(t: Table, live: map<nat, nat>, s: nat)
    requires Represents(t, live)
    ensures SameAt(Live(t), live, s)
  {
    assert s in live ==> Chain(t, s, live[s]);
    if s < |t| { FirstIsStart(t, live, s); }
    if s in live { ChainLengthIs(t, s, live[s], 0); }
  }

  /** A table stands for at most one allocation map, the one its flags spell out. */
  lemma LiveIsUnique(t: Table, live: map<nat, nat>)
    requires Represents(t, live)
    ensures Live(t) == live
  {
    forall s: nat ensures SameAt(Live(t), live, s) {
      LiveAt(t, live, s);
    }
    SameMap(Live(t), live);
  }

  predicate SameAt(a: map<nat, nat>, b: map<nat, nat>, s: nat) {
    (s in a <==> s in b) && (s in a ==> a[s] == b[s])
  }

  lemma SameMap(a: map<nat, nat>, b: map<nat, nat>)
    requires forall s: nat :: SameAt(a, b, s)
    ensures a == b
  {
    forall s: nat ensures s in a <==> s in b {
      assert SameAt(a, b, s);
    }
    forall s | s in a ensures a[s] == b[s] {
      assert SameAt(a, b, s);
    }
  }

  /** Conversely, the allocation map determines the table byte for byte. */
  lemma TableIsUnique(t: Table, u: Table, live: map<nat, nat>)
    requires Represents(t, live) && Represents(u, live) && |t| == |u|
    ensures t == u
  {
    forall i | 0 <= i < |t| ensures t[i] == u[i] {
      if s :| Covers(live, s, i) {
        assert Chain(t, s, live[s]) && Chain(u, s, live[s]);
      }
    }
  }

  /** Live allocations do not overlap and stay inside the table. */
  lemma LiveDisjoint(t: Table, live: map<nat, nat>, a: nat, b: nat)
    requires Represents(t, live) && a in live && b in live && a < b
    ensures a + live[a] <= b && b + live[b] <= |t|
  {
    assert Chain(t, a, live[a]) && Chain(t, b, live[b]);
    assert b < a + live[a] ==> t[b] == ChainEntry(b - a, live[a]);
    assert t[b] == ChainEntry(b - b, live[b]);
    ChainEntryFlags(b - a, live[a]);
    ChainEntryFlags(0, live[b]);
  }

  /** The bytes of an allocation: 0x41 alone; else 0xc1, any number of 0x81, and 0x01. */
  lemma ChainBytes(t: Table, s: nat, n: nat)
    ensures Chain(t, s, n) <==>
      && 1 <= n && s + n <= |t|
      && forall i :: s <= i < s + n ==>
           t[i] == if n == 1 then 0x41 else if i == s then 0xc1 else if i < s + n - 1 then 0x81 else 0x01
  {
    forall k: nat | k < n
      ensures ChainEntry(k, n) == if n == 1 then 0x41 else if k == 0 then 0xc1 else if k < n - 1 then 0x81 else 0x01
    {
      EntryByte(k, n);
    }
  }

  /** Any byte whose low four bits are clear counts as free, whatever its high bits. */
  lemma FreeBytes(e: bv8)
    ensures IsFree(e) <==> e == (e >> 4) << 4
  {
  }

  lemma EntryByte(k: nat, n: nat)
    requires k < n
    ensures ChainEntry(k, n) == if n == 1 then 0x41 else if k == 0 then 0xc1 else if k < n - 1 then 0x81 else 0x01
  {
    assert TAKEN | IS_FIRST | 0 == 0x41 && TAKEN | IS_FIRST | HAS_NEXT == 0xc1;
    assert TAKEN | 0 | HAS_NEXT == 0x81 && TAKEN | 0 | 0 == 0x01;
  }

  // ---------------------------------------------------------------------
  // First-fit scan
  // ---------------------------------------------------------------------

  ghost predicate FreeRun(t: Table, s: nat, n: nat) {
    && s + n <= |t|
    && forall i :: s <= i < s + n ==> IsFree(t[i])
  }

  ghost predicate FitExists(t: Table, n: nat) {
    n >= 1 && exists s: nat :: FreeRun(t, s, n)
  }

  predicate LastBlockFree(t: Table) {
    t != [] && IsFree(t[|t| - 1])
  }

  /**
   The loop of heap_get_start_block from block i on. `start` is the first block
   of the free run that ends just before i, or -1; the run's length is i - start.
   */
  function Scan(t: Table, n: nat, i: nat, start: int): int
    requires i <= |t| && -1 <= start < i
    decreases |t| - i
  {
    if i == |t| then
      if start == -1 then -ENOMEM else start
    else if !IsFree(t[i]) then
      Scan(t, n, i + 1, -1)
    else
      var first := if start == -1 then i else start;
      if i + 1 - first == n then first else Scan(t, n, i + 1, first)
  }

  function StartBlock(t: Table, n: nat): int {
    Scan(t, n, 0, -1)
  }

  /** What the scan answers, without reference to how it walks. */
  ghost predicate FirstFit(t: Table, n: nat, r: int) {
    if FitExists(t, n) then
      r >= 0 && FreeRun(t, r, n) && forall s: nat :: s < r ==> !FreeRun(t, s, n)
    else if LastBlockFree(t) then
      0 <= r < |t| && FreeRun(t, r, |t| - r) && (r > 0 ==> !IsFree(t[r - 1]))
    else
      r == -ENOMEM
  }

  /** The scan's position: the free run in progress, and no fit passed over. */
  ghost predicate ScanInv(t: Table, n: nat, i: nat, start: int)
    requires i <= |t| && -1 <= start < i
  {
    && (start == -1 ==> i == 0 || !IsFree(t[i - 1]))
    && (start >= 0 ==> FreeRun(t, start, i - start) && (start > 0 ==> !IsFree(t[start - 1])))
    && (start >= 0 && n >= 1 ==> i - start < n)
    && (n >= 1 ==> forall s: nat :: s + n <= i ==> !FreeRun(t, s, n))
  }

  lemma {:induction false} ScanIsFirstFit(t: Table, n: nat, i: nat, start: int)
    requires i <= |t| && -1 <= start < i
    requires ScanInv(t, n, i, start)
    ensures FirstFit(t, n, Scan(t, n, i, start))
    decreases |t| - i
  {
    if i == |t| {
      assert !FitExists(t, n);
    } else if !IsFree(t[i]) {
      forall s: nat | s + n <= i + 1 && n >= 1 ensures !FreeRun(t, s, n) {
        if s + n == i + 1 { assert s <= i < s + n; }
      }
      ScanIsFirstFit(t, n, i + 1, -1);
    } else {
      var first := if start == -1 then i else start;
      assert FreeRun(t, first, i + 1 - first);
      if n >= 1 {
        forall s: nat | s < first ensures !FreeRun(t, s, n) {
          NoRunBefore(t, n, i, first, s);
        }
      }
      if i + 1 - first != n {
        ScanIsFirstFit(t, n, i + 1, first);
      }
    }
  }

  lemma NoRunBefore(t: Table, n: nat, i: nat, first: nat, s: nat)
    requires n >= 1 && s < first <= i < |t| && !IsFree(t[first - 1])
    requires s + n <= i ==> !FreeRun(t, s, n)
    ensures !FreeRun(t, s, n)
  {
    if s + n > i { assert s <= first - 1 < s + n; }
  }

  /** The scan finds the lowest fit; failing that, the trailing free run, however short. */
  lemma StartBlockIsFirstFit(t: Table, n: nat)
    ensures FirstFit(t, n, StartBlock(t, n))
  {
    ScanIsFirstFit(t, n, 0, -1);
  }

  lemma StartBlockRange(t: Table, n: nat)
    ensures StartBlock(t, n) == -ENOMEM || 0 <= StartBlock(t, n) < |t|
  {
    StartBlockIsFirstFit(t, n);
  }

  /** For one block the scan is exact: it fails if and only if no block is free. */
  lemma OneBlockScan(t: Table)
    ensures StartBlock(t, 1) < 0 <==> forall i :: 0 <= i < |t| ==> !IsFree(t[i])
    ensures StartBlock(t, 1) >= 0 ==> FreeRun(t, StartBlock(t, 1), 1)
  {
    StartBlockIsFirstFit(t, 1);
    assert forall i :: 0 <= i < |t| && IsFree(t[i]) ==> FreeRun(t, i, 1);
    if StartBlock(t, 1) >= 0 {
      assert FreeRun(t, StartBlock(t, 1), 1);
      assert IsFree(t[StartBlock(t, 1)]);
    }
  }

  /** A request whose answer leaves room for the blocks that will be marked. */
  predicate InBounds(t: Table, n: nat) {
    StartBlock(t, n) < 0 || StartBlock(t, n) + n <= |t|
  }

  /**
   The too-short trailing run is the only way marking can leave the table:
   a request is safe exactly when it asks for nothing, a fit exists, or the
   last block is taken.
   */
  lemma InBoundsIff(t: Table, n: nat)
    ensures InBounds(t, n) <==> n == 0 || FitExists(t, n) || !LastBlockFree(t)
  {
    var r := StartBlock(t, n);
    StartBlockIsFirstFit(t, n);
    if InBounds(t, n) && n >= 1 && LastBlockFree(t) {
      assert FreeRun(t, r, n);
    }
  }

  // ---------------------------------------------------------------------
  // Taking and freeing chains
  // ---------------------------------------------------------------------

  /** The table after heap_mark_blocks_taken. */
  function MarkTaken(t: Table, s: nat, n: nat): Table {
    seq(|t|, i requires 0 <= i < |t| => if s <= i < s + n then ChainEntry(i - s, n) else t[i])
  }

  /** The loop of heap_mark_blocks_free: clear, and go on while HAS_NEXT was set. */
  function MarkFree(t: Table, s: nat): Table
    decreases |t| - s
  {
    if s >= |t| then t
    else if HasNext(t[s]) then MarkFree(t[s := FREE], s + 1)
    else t[s := FREE]
  }

  function Clear(t: Table, s: nat, n: nat): Table {
    seq(|t|, i requires 0 <= i < |t| => if s <= i < s + n then FREE else t[i])
  }

  /** heap_malloc_blocks: the answer of the scan and the table it leaves. */
  function MallocBlocks(t: Table, n: nat): (r: (Table, int))
    requires InBounds(t, n)
    ensures |r.0| == |t|
  {
    var s := StartBlock(t, n);
    if s < 0 then (t, s) else (MarkTaken(t, s, n), s)
  }

  lemma {:induction false} MarkFreeClears(t: Table, s: nat, n: nat)
    requires 1 <= n && s + n <= |t|
    requires forall i :: s <= i < s + n ==> (HasNext(t[i]) <==> i + 1 < s + n)
    ensures MarkFree(t, s) == Clear(t, s, n)
    decreases n
  {
    var u := t[s := FREE];
    if n > 1 {
      MarkFreeClears(u, s + 1, n - 1);
      assert Clear(u, s + 1, n - 1) == Clear(t, s, n);
    } else {
      assert u == Clear(t, s, 1);
    }
  }

  /** Walking a chain from its start clears that allocation and nothing else. */
  lemma FreeClearsChain(t: Table, s: nat, n: nat)
    requires Chain(t, s, n)
    ensures MarkFree(t, s) == Clear(t, s, n)
  {
    forall i | s <= i < s + n ensures HasNext(t[i]) <==> i + 1 < s + n {
      ChainEntryFlags(i - s, n);
    }
    MarkFreeClears(t, s, n);
  }

  /** In a well-formed table a free run overlaps no live allocation, and conversely. */
  lemma FreeRunIff(t: Table, live: map<nat, nat>, s: nat, n: nat)
    requires Represents(t, live) && 1 <= n
    ensures FreeRun(t, s, n) <==> Unused(live, |t|, s, n)
    ensures FreeRun(t, s, n) ==> forall i :: s <= i < s + n ==> t[i] == FREE
  {
    if FreeRun(t, s, n) {
      forall x | x in live ensures s + n <= x || x + live[x] <= s {
        var i := if x <= s then s else x;
        assert i < x + live[x] ==> t[i] == ChainEntry(i - x, live[x]) by { assert Chain(t, x, live[x]); }
        ChainEntryFlags(i - x, live[x]);
      }
      forall i | s <= i < s + n ensures t[i] == FREE {
        if x :| Covers(live, x, i) { }
      }
    }
    if Unused(live, |t|, s, n) {
      forall i | s <= i < s + n ensures IsFree(t[i]) {
        if x :| Covers(live, x, i) { }
      }
    }
  }

  /** Blocks s .. s+n lie in the pool and in no live allocation. */
  predicate Unused(live: map<nat, nat>, total: nat, s: nat, n: nat) {
    && s + n <= total
    && forall x :: x in live ==> s + n <= x || x + live[x] <= s
  }

  lemma TakeKeeps(t: Table, live: map<nat, nat>, s: nat, n: nat)
    requires Represents(t, live) && n >= 1 && FreeRun(t, s, n)
    ensures s !in live
    ensures Represents(MarkTaken(t, s, n), live[s := n])
  {
    assert s in live ==> Chain(t, s, live[s]);
    FreeRunIff(t, live, s, n);
    var u, after := MarkTaken(t, s, n), live[s := n];
    forall x | x in after ensures Chain(u, x, after[x]) {
      if x != s { assert Chain(t, x, live[x]); }
    }
    forall i | 0 <= i < |u| ensures u[i] == FREE || exists x :: Covers(after, x, i) {
      if s <= i < s + n {
        assert Covers(after, s, i);
      } else if x :| Covers(live, x, i) {
        assert Covers(after, x, i);
      }
    }
  }

  lemma FreeKeeps(t: Table, live: map<nat, nat>, s: nat)
    requires Represents(t, live) && s in live
    ensures Represents(MarkFree(t, s), live - {s})
  {
    var n, u, after := live[s], MarkFree(t, s), live - {s};
    assert Chain(t, s, n);
    FreeClearsChain(t, s, n);
    forall x | x in after ensures Chain(u, x, after[x]) {
      assert Chain(t, x, live[x]);
      if x < s { LiveDisjoint(t, live, x, s); } else { LiveDisjoint(t, live, s, x); }
    }
    forall i | 0 <= i < |u| ensures u[i] == FREE || exists x :: Covers(after, x, i) {
      if !(s <= i < s + n) {
        if x :| Covers(live, x, i) { assert Covers(after, x, i); }
      }
    }
  }

  lemma {:induction false} MarkFreeLength(t: Table, s: nat)
    ensures |MarkFree(t, s)| == |t|
    decreases |t| - s
  {
    if s < |t| && HasNext(t[s]) { MarkFreeLength(t[s := FREE], s + 1); }
  }

  /**
   One block taken from a fresh heap of two leaves one. A request for two is then
   answered with it, and marking would leave the table.
   */
  lemma ShortTrailingRun()
    ensures var t := MallocBlocks([FREE, FREE], 1).0;
      WellFormed(t) && StartBlock(t, 2) == 1 && !InBounds(t, 2)
  {
    var fresh2: Table := [FREE, FREE];
    assert StartBlock(fresh2, 1) == 0;
    assert Represents(fresh2, map[]);
    TakeKeeps(fresh2, map[], 0, 1);
    var t := MallocBlocks(fresh2, 1).0;
    LiveIsUnique(t, map[0 := 1]);
    ChainEntryFlags(0, 1);
    assert Scan(t, 2, 2, 1) == 1;
    assert Scan(t, 2, 1, -1) == 1;
  }

  /** Malloc followed by free of the answer restores every byte of the table. */
  lemma MallocThenFree(t: Table, n: nat)
    requires WellFormed(t) && n >= 1 && InBounds(t, n)
    ensures var (u, s) := MallocBlocks(t, n); s >= 0 ==> MarkFree(u, s) == t
  {
    var (u, s) := MallocBlocks(t, n);
    if s >= 0 {
      var live := Live(t);
      AnswerIsFree(t, n);
      TakeKeeps(t, live, s, n);
      FreeKeeps(u, live[s := n], s);
      MarkFreeLength(u, s);
      assert live[s := n] - {s} == live;
      TableIsUnique(MarkFree(u, s), t, live);
    }
  }

  /** A non-negative in-bounds answer is the start of enough free blocks. */
  lemma AnswerIsFree(t: Table, n: nat)
    requires n >= 1 && InBounds(t, n) && StartBlock(t, n) >= 0
    ensures FreeRun(t, StartBlock(t, n), n) && FitExists(t, n)
  {
    StartBlockIsFirstFit(t, n);
    assert FreeRun(t, StartBlock(t, n), n);
  }
}
