/**
 Single-block heap allocations seen as page frames: what taking and releasing a
 number of them does to the allocation map.
 */
module PageBlocks {
  import opened Bits
  import opened BlockTable
  import opened HeapRuns
  import opened BlockHeap
  import opened Memory
  import opened Kheap

  ghost predicate NoRepeats(s: seq<nat>) {
    forall i, j :: 0 <= i < j < |s| ==> s[i] != s[j]
  }

  ghost predicate SameElsewhere(before: Ram, after: Ram, frames: seq<nat>) {
    forall f :: 0 <= f < FRAMES && f !in frames ==> after[f] == before[f]
  }

  lemma SameElsewhereTwo(before: Ram, middle: Ram, after: Ram, a: seq<nat>, b: seq<nat>)
    requires SameElsewhere(before, middle, a) && SameElsewhere(middle, after, b)
    ensures SameElsewhere(before, after, b + a)
  {
  }

  lemma SameElsewhereWithin(before: Ram, middle: Ram, after: Ram, a: seq<nat>, b: seq<nat>, c: seq<nat>)
    requires SameElsewhere(before, middle, a) && SameElsewhere(middle, after, b)
    requires forall f :: f in a || f in b ==> f in c
    ensures SameElsewhere(before, after, c)
  {
  }

  /** `live` is `live0` with one new single-block allocation per frame. */
  ghost predicate Taken(live: map<nat, nat>, live0: map<nat, nat>, base: nat, frames: seq<nat>) {
    && NoRepeats(frames)
    && (forall f :: f in frames ==> f >= base && f - base !in live0)
    && (forall b: nat :: b in live <==> b in live0 || base + b in frames)
    && (forall b :: b in live ==> live[b] == if b in live0 then live0[b] else 1)
  }

  /** `live` is `live0` without the frames' allocations. */
  ghost predicate Released(live: map<nat, nat>, live0: map<nat, nat>, base: nat, frames: seq<nat>) {
    && (forall b: nat :: b in live <==> b in live0 && base + b !in frames)
    && (forall b :: b in live ==> live[b] == live0[b])
  }

  /** Each frame is a live allocation of one block. */
  ghost predicate Owned(live: map<nat, nat>, base: nat, frames: seq<nat>) {
    forall f :: f in frames ==> f >= base && f - base in live && live[f - base] == 1
  }

  lemma TakeOne(live: map<nat, nat>, live0: map<nat, nat>, base: nat, frames: seq<nat>, b: nat)
    requires Taken(live, live0, base, frames) && b !in live
    ensures base + b !in frames
    ensures Taken(live[b := 1], live0, base, frames + [base + b])
  {
    hide Taken, NoRepeats;
    TakenAt(live, live0, base, frames, b);
    NewFrames(live, live0, base, frames);
    NoRepeatsAppend(frames, base + b);
    var after, more := live[b := 1], frames + [base + b];
    forall c: nat ensures EntryAt(after, live0, base, more, c) {
      TakenAt(live, live0, base, frames, c);
    }
    AreTaken(after, live0, base, more);
  }

  /** The one entry of a map with new single-block allocations. */
  predicate EntryAt(live: map<nat, nat>, live0: map<nat, nat>, base: nat, frames: seq<nat>, b: nat) {
    && (b in live <==> b in live0 || base + b in frames)
    && (b in live ==> live[b] == if b in live0 then live0[b] else 1)
  }

  lemma NewFrames(live: map<nat, nat>, live0: map<nat, nat>, base: nat, frames: seq<nat>)
    requires Taken(live, live0, base, frames)
    ensures NoRepeats(frames) && forall f :: f in frames ==> f >= base && f - base !in live0
  {
  }

  lemma TakenAt(live: map<nat, nat>, live0: map<nat, nat>, base: nat, frames: seq<nat>, b: nat)
    requires Taken(live, live0, base, frames)
    ensures EntryAt(live, live0, base, frames, b)
  {
    hide NoRepeats;
  }

  lemma AreTaken(live: map<nat, nat>, live0: map<nat, nat>, base: nat, frames: seq<nat>)
    requires NoRepeats(frames) && forall f :: f in frames ==> f >= base && f - base !in live0
    requires forall b: nat :: EntryAt(live, live0, base, frames, b)
    ensures Taken(live, live0, base, frames)
  {
    hide NoRepeats;
    forall b: nat
      ensures b in live <==> b in live0 || base + b in frames
      ensures b in live ==> live[b] == if b in live0 then live0[b] else 1
    {
      assert EntryAt(live, live0, base, frames, b);
    }
  }

  lemma NoRepeatsAppend(s: seq<nat>, x: nat)
    requires NoRepeats(s) && x !in s
    ensures NoRepeats(s + [x])
  {
  }

  lemma ReleaseOne(live: map<nat, nat>, live0: map<nat, nat>, base: nat, frames: seq<nat>, f: nat)
    requires Released(live, live0, base, frames) && f >= base
    ensures Released(live - {f - base}, live0, base, frames + [f])
  {
  }

  /** Giving back exactly what was taken restores the allocation map. */
  lemma TakenThenReleased(
      before: map<nat, nat>, during: map<nat, nat>, after: map<nat, nat>, base: nat,
      taken: seq<nat>, released: seq<nat>)
    requires Taken(during, before, base, taken) && Released(after, during, base, released)
    requires forall f :: f in taken <==> f in released
    ensures after == before
  {
    forall b: nat ensures SameAt(after, before, b) {
      assert base + b in taken ==> b !in before;
    }
    SameMap(after, before);
  }

  lemma NothingReleased(live: map<nat, nat>, base: nat)
    ensures Released(live, live, base, [])
  {
  }

  lemma ReleaseNext(live0: map<nat, nat>, live: map<nat, nat>, base: nat, frames: seq<nat>, released: seq<nat>, i: nat)
    requires Owned(live0, base, frames) && Released(live, live0, base, released) && i < |frames|
    ensures Released(live - {frames[i] - base}, live0, base, released + [frames[i]])
  {
    assert frames[i] in frames;
    ReleaseOne(live, live0, base, released, frames[i]);
  }

  lemma TakenIsOwned(live: map<nat, nat>, live0: map<nat, nat>, base: nat, frames: seq<nat>)
    requires Taken(live, live0, base, frames)
    ensures Owned(live, base, frames)
  {
    assert forall f :: f in frames ==> base + (f - base) in frames;
  }

  lemma StillOwned(live0: map<nat, nat>, live: map<nat, nat>, base: nat, frames: seq<nat>, released: seq<nat>, i: nat)
    requires Owned(live0, base, frames) && NoRepeats(frames) && Released(live, live0, base, released)
    requires i < |frames| && frames[i] !in released
    ensures Owned(live, base, [frames[i]])
  {
    assert frames[i] in frames;
  }

  // ---------------------------------------------------------------------
  // kzalloc and kfree of one page
  // ---------------------------------------------------------------------

  /** A kzalloc of at most one page: the lowest free block, or 0 when there is none. */
  method KzallocSmall(k: Kernel, size: Word) returns (ptr: Word)
    requires k.Valid() && 0 < size <= BLOCK_SIZE
    modifies k`ram, k.heap.entries
    ensures k.Valid()
    ensures var t, s := old(k.Table()), StartBlock(old(k.Table()), 1);
      && (s < 0 ==> ptr == 0 && k.ram == old(k.ram) && k.Table() == t)
      && (s >= 0 ==>
        && ptr == k.Frame(s) * PAGE_SIZE && 0 < k.Frame(s) < FRAMES && k.heap.InPool(ptr) && k.heap.Block(ptr) == s
        && InBounds(t, 1) && k.Table() == MallocBlocks(t, 1).0 && s !in Live(t)
        && SameElsewhere(old(k.ram), k.ram, [k.Frame(s)])
        && Filled(old(k.ram), k.ram, ptr, size, 0))
  {
    hide Live, StartBlock, Represents;
    OneBlockScan(k.Table());
    if StartBlock(k.Table(), 1) >= 0 {
      TakeStep(k.Table(), 1);
    }
    ptr := k.Kzalloc(size);
  }

  predicate BlockFree(t: Table, b: nat) {
    b < |t| && IsFree(t[b])
  }

  /** A kzalloc of at most one page cannot fail while a block is free. */
  method KzallocPage(k: Kernel, size: Word) returns (frame: nat)
    requires k.Valid() && 0 < size <= BLOCK_SIZE && FreeCount(k.Table()) > 0
    modifies k`ram, k.heap.entries
    ensures k.Valid()
    ensures k.Frame(0) <= frame < FRAMES && BlockFree(old(k.Table()), frame - k.Frame(0))
    ensures var b := frame - k.Frame(0);
      b !in Live(old(k.Table())) && Live(k.Table()) == Live(old(k.Table()))[b := 1]
    ensures FreeCount(k.Table()) + 1 == FreeCount(old(k.Table()))
    ensures SameElsewhere(old(k.ram), k.ram, [frame])
    ensures Filled(old(k.ram), k.ram, frame * PAGE_SIZE, size, 0)
  {
    hide Live, FreeCount, StartBlock, Represents;
    OneBlockAvailable(k.Table());
    TakeStep(k.Table(), 1);
    OneBlockScan(k.Table());
    var ptr := KzallocSmall(k, size);
    frame := ptr / PAGE_SIZE;
  }

  /** kfree of one owned frame. */
  method KfreePage(k: Kernel, frame: nat)
    requires k.Valid() && Owned(Live(k.Table()), k.Frame(0), [frame])
    modifies k.heap.entries
    ensures k.Valid()
    ensures Live(k.Table()) == Live(old(k.Table())) - {frame - k.Frame(0)}
    ensures FreeCount(k.Table()) == FreeCount(old(k.Table())) + 1
  {
    hide Live, FreeCount;
    ghost var t, b := k.Table(), frame - k.Frame(0);
    assert frame in [frame];
    FreeStep(t, b);
    assert b < |t| by { assert Chain(t, b, Live(t)[b]); }
    k.Kfree(frame * PAGE_SIZE);
  }
}
