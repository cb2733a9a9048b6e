/**
 Any number of address spaces over one kernel heap: created, mapped into and freed
 in any order among everybody else who allocates, frees and writes memory.
 */
module SpaceRuns {
  import opened Bits
  import opened BlockTable
  import opened HeapRuns
  import opened BlockHeap
  import opened Memory
  import opened Kheap
  import opened PageBlocks
  import opened PageTables
  import opened PagingRuns
  import opened AddressSpace

  /** Memory and the block table of the heap whose pool begins at frame `base`. */
  datatype Machine = Machine(ram: Ram, table: Table, base: nat)

  /** The flags a space was made with and the operations on it since. */
  datatype History = History(flags: Byte, ops: seq<PagingOp>)

  datatype Event =
    | Create(chunk: nat, flags: Byte)
    | Destroy(chunk: nat)
    | Operate(chunk: nat, op: PagingOp)
    | Allocate(blocks: nat)
    | Release(block: nat)
    | Store(block: nat)
    | StoreOutside

  /** The live spaces and their histories after one more event. */
  function Book(spaces: map<nat, History>, e: Event): map<nat, History> {
    match e
    case Create(c, flags) => spaces[c := History(flags, [])]
    case Destroy(c) => spaces - {c}
    case Operate(c, op) =>
      if c in spaces then spaces[c := History(spaces[c].flags, spaces[c].ops + [op])] else spaces
    case _ => spaces
  }

  function Booked(events: seq<Event>): map<nat, History> {
    if events == [] then map[] else Book(Booked(events[..|events| - 1]), events[|events| - 1])
  }

  // ---------------------------------------------------------------------
  // One step
  // ---------------------------------------------------------------------

  predicate InRange(f: nat, from: nat, n: nat) {
    from <= f < from + n
  }

  /** Memory is as before but for n frames from `from`. */
  ghost predicate ChangedOnly(before: Ram, after: Ram, from: nat, n: nat) {
    forall f :: 0 <= f < FRAMES && !InRange(f, from, n) ==> after[f] == before[f]
  }

  /** A live allocation that is no part of a space. */
  ghost predicate ForeignBlock(m: Machine, spaces: map<nat, History>, s: nat) {
    s in Live(m.table) && forall c :: c in spaces && c < FRAMES ==> m.base + s !in Frames(m.ram, c)
  }

  /**
   What each event does. Whoever is not the paging code frees and writes its own
   allocations only, or writes outside the pool.
   */
  ghost predicate Next(m: Machine, spaces: map<nat, History>, e: Event, n: Machine) {
    n.base == m.base &&
    match e
    case Create(c, flags) =>
      && Formed(n.ram, c) && Flat(n.ram, c) == IdentityMap(flags) && Carries(Directory(n.ram, c), Or(flags, WRITABLE))
      && WellFormed(n.table) && Taken(Live(n.table), Live(m.table), m.base, Frames(n.ram, c))
      && SameElsewhere(m.ram, n.ram, Frames(n.ram, c))
    case Destroy(c) =>
      && c in spaces && c < FRAMES && n.ram == m.ram
      && WellFormed(n.table) && Released(Live(n.table), Live(m.table), m.base, Frames(m.ram, c))
    case Operate(c, op) => c in spaces && c < FRAMES && n == m.(ram := Apply(m.ram, c, op))
    case Allocate(blocks) =>
      InBounds(m.table, blocks) &&
      var (t, s) := MallocBlocks(m.table, blocks);
      n.table == t && if s < 0 then n.ram == m.ram else ChangedOnly(m.ram, n.ram, m.base + s, blocks)
    case Release(s) => ForeignBlock(m, spaces, s) && n == m.(table := MarkFree(m.table, s))
    case Store(s) =>
      ForeignBlock(m, spaces, s) && n.table == m.table && ChangedOnly(m.ram, n.ram, m.base + s, Live(m.table)[s])
    case StoreOutside =>
      n.table == m.table && forall f :: 0 <= f < FRAMES && InRange(f, m.base, |m.table|) ==> n.ram[f] == m.ram[f]
  }

  // ---------------------------------------------------------------------
  // What every step keeps
  // ---------------------------------------------------------------------

  /**
   The space maps what its own operations, over an identity map, make it map, and
   its directory carries the flags it was made with and the writable bit.
   */
  ghost predicate MapsOwn(ram: Ram, c: nat, h: History) {
    && c < FRAMES && Flat(ram, c) == FlatOps(IdentityMap(h.flags), h.ops)
    && Carries(Directory(ram, c), Or(h.flags, WRITABLE))
  }

  /** The spaces are well formed, share no frame, own their blocks, and map what their histories say. */
  ghost predicate Inv(m: Machine, spaces: map<nat, History>) {
    && WellFormed(m.table)
    && Spaces(m.ram, Live(m.table), m.base, spaces.Keys)
    && forall c :: c in spaces ==> MapsOwn(m.ram, c, spaces[c])
  }

  lemma CreateKeeps(m: Machine, spaces: map<nat, History>, e: Event, n: Machine)
    requires Inv(m, spaces) && Next(m, spaces, e, n) && e.Create?
    ensures Inv(n, Book(spaces, e))
  {
    hide Live, WellFormed, Flat, Frames, NoRepeats, Taken, Spaces, IdentityMap;
    NewJoins(m.ram, n.ram, Live(m.table), Live(n.table), m.base, spaces.Keys, e.chunk);
    assert Book(spaces, e).Keys == spaces.Keys + {e.chunk};
    forall c | c in Book(spaces, e) ensures MapsOwn(n.ram, c, Book(spaces, e)[c]) {
      if c != e.chunk { assert MapsOwn(m.ram, c, spaces[c]); }
    }
  }

  lemma DestroyKeeps(m: Machine, spaces: map<nat, History>, e: Event, n: Machine)
    requires Inv(m, spaces) && Next(m, spaces, e, n) && e.Destroy?
    ensures Inv(n, Book(spaces, e))
  {
    hide Live, WellFormed, Flat, Frames, Formed, Released, Spaces, IdentityMap, FlatOps;
    FreeLeaves(m.ram, Live(m.table), Live(n.table), m.base, spaces.Keys, e.chunk);
    assert Book(spaces, e).Keys == spaces.Keys - {e.chunk};
  }

  lemma OperateEach(m: Machine, spaces: map<nat, History>, chunk: nat, op: PagingOp, c: nat)
    requires Inv(m, spaces) && chunk in spaces && c in spaces && chunk < FRAMES
    ensures var after := Apply(m.ram, chunk, op);
      && Formed(after, c) && Frames(after, c) == Frames(m.ram, c)
      && MapsOwn(after, c, Book(spaces, Operate(chunk, op))[c])
  {
    hide FlatOps, Live, WellFormed, Flat, Frames, Separate, Apply, ApplyFlat, IdentityMap, Owned, NoRepeats;
    assert MapsOwn(m.ram, c, spaces[c]);
    if c == chunk {
      ApplyRefines(m.ram, c, op);
      FlatOneMore(IdentityMap(spaces[c].flags), spaces[c].ops, op);
    } else {
      ApplyElsewhere(m.ram, chunk, op, c);
    }
  }

  lemma OperateKeeps(m: Machine, spaces: map<nat, History>, e: Event, n: Machine)
    requires Inv(m, spaces) && Next(m, spaces, e, n) && e.Operate?
    ensures Inv(n, Book(spaces, e))
  {
    hide MapsOwn, Live, WellFormed, Frames, Separate, Apply, Owned;
    assert Book(spaces, e).Keys == spaces.Keys;
    forall c | c in spaces
      ensures Formed(n.ram, c) && Frames(n.ram, c) == Frames(m.ram, c) && MapsOwn(n.ram, c, Book(spaces, e)[c])
    {
      OperateEach(m, spaces, e.chunk, e.op, c);
    }
    StillApart(m.ram, n.ram, spaces.Keys);
  }

  /** Nothing happens to spaces whose frames keep their contents and stay allocated. */
  lemma Bystanders(m: Machine, spaces: map<nat, History>, n: Machine)
    requires Inv(m, spaces) && WellFormed(n.table) && n.base == m.base
    requires forall c, f :: c in spaces && c < FRAMES && f in Frames(m.ram, c) && f < FRAMES ==> n.ram[f] == m.ram[f]
    requires forall c :: c in spaces && c < FRAMES ==> Owned(Live(n.table), m.base, Frames(m.ram, c))
    ensures Inv(n, spaces)
  {
    hide Live, WellFormed, Flat, Frames, Separate, IdentityMap, FlatOps, Owned, NoRepeats;
    forall c | c in spaces
      ensures Formed(n.ram, c) && Frames(n.ram, c) == Frames(m.ram, c) && MapsOwn(n.ram, c, spaces[c])
    {
      assert MapsOwn(m.ram, c, spaces[c]);
      FramesInRange(m.ram, c);
      OwnFramesOnly(m.ram, n.ram, c);
    }
    StillApart(m.ram, n.ram, spaces.Keys);
  }

  /** A frame of a space lies in no other allocation. */
  lemma OffOtherBlocks(t: Table, base: nat, frames: seq<nat>, f: nat, s: nat)
    requires WellFormed(t) && Owned(Live(t), base, frames) && f in frames
    requires s in Live(t) && base + s !in frames
    ensures !InRange(f, base + s, Live(t)[s]) && InRange(f, base, |t|)
  {
    hide Represents;
    var b := f - base;
    assert base + b == f;
    if b < s { LiveDisjoint(t, Live(t), b, s); } else { LiveDisjoint(t, Live(t), s, b); }
  }

  lemma EmptyMark(t: Table, s: nat)
    ensures MarkTaken(t, s, 0) == t
  {
  }

  lemma AllocateKeeps(m: Machine, spaces: map<nat, History>, e: Event, n: Machine)
    requires Inv(m, spaces) && Next(m, spaces, e, n) && e.Allocate?
    ensures Inv(n, spaces)
  {
    hide Live, WellFormed, Flat, Frames, MapsOwn, StartBlock, MarkTaken, Apart;
    var s := StartBlock(m.table, e.blocks);
    MallocKeeps(m.table, e.blocks);
    if s >= 0 && e.blocks > 0 {
      TakeStep(m.table, e.blocks);
      forall c, f | c in spaces && c < FRAMES && f in Frames(m.ram, c) && f < FRAMES ensures n.ram[f] == m.ram[f] {
        assert m.base + s !in Frames(m.ram, c);
        OffOtherBlocks(n.table, m.base, Frames(m.ram, c), f, s);
      }
    } else if s >= 0 {
      assert MarkTaken(m.table, s, 0) == m.table by { EmptyMark(m.table, s); }
    }
    Bystanders(m, spaces, n);
  }

  lemma ReleaseKeeps(m: Machine, spaces: map<nat, History>, e: Event, n: Machine)
    requires Inv(m, spaces) && Next(m, spaces, e, n) && e.Release?
    ensures Inv(n, spaces)
  {
    hide Live, WellFormed, Flat, Frames, MapsOwn, MarkFree, Apart;
    FreeStep(m.table, e.block);
    forall c | c in spaces && c < FRAMES ensures Owned(Live(n.table), m.base, Frames(m.ram, c)) {
      assert forall f :: f in Frames(m.ram, c) ==> m.base + (f - m.base) == f;
    }
    Bystanders(m, spaces, n);
  }

  lemma StoreKeeps(m: Machine, spaces: map<nat, History>, e: Event, n: Machine)
    requires Inv(m, spaces) && Next(m, spaces, e, n) && (e.Store? || e.StoreOutside?)
    ensures Inv(n, spaces)
  {
    hide Live, WellFormed, Flat, Frames, MapsOwn, Apart;
    forall c, f | c in spaces && c < FRAMES && f in Frames(m.ram, c) && f < FRAMES ensures n.ram[f] == m.ram[f] {
      if e.Store? {
        OffOtherBlocks(m.table, m.base, Frames(m.ram, c), f, e.block);
      } else {
        InPool(m.table, m.base, Frames(m.ram, c), f);
      }
    }
    Bystanders(m, spaces, n);
  }

  lemma InPool(t: Table, base: nat, frames: seq<nat>, f: nat)
    requires WellFormed(t) && Owned(Live(t), base, frames) && f in frames
    ensures InRange(f, base, |t|)
  {
    assert Chain(t, f - base, Live(t)[f - base]);
  }

  lemma StepKeeps(m: Machine, spaces: map<nat, History>, e: Event, n: Machine)
    requires Inv(m, spaces) && Next(m, spaces, e, n)
    ensures Inv(n, Book(spaces, e))
  {
    hide Inv, Next;
    match e
    case Create(_, _) => CreateKeeps(m, spaces, e, n);
    case Destroy(_) => DestroyKeeps(m, spaces, e, n);
    case Operate(_, _) => OperateKeeps(m, spaces, e, n);
    case Allocate(_) => AllocateKeeps(m, spaces, e, n);
    case Release(_) => ReleaseKeeps(m, spaces, e, n);
    case _ => StoreKeeps(m, spaces, e, n);
  }

  // ---------------------------------------------------------------------
  // Every run
  // ---------------------------------------------------------------------

  /** states[i + 1] is what events[i] makes of states[i]. */
  ghost predicate Execution(states: seq<Machine>, events: seq<Event>) {
    && |states| == |events| + 1
    && forall i :: 0 <= i < |events| ==> Next(states[i], Booked(events[..i]), events[i], states[i + 1])
  }

  /**
   In every interleaving over one heap, whoever else uses it, in every state: the
   live spaces are whole and disjoint, and each maps what its own operations since
   its creation make of an identity map.
   */
  lemma {:induction false} EveryState(states: seq<Machine>, events: seq<Event>, i: nat)
    requires Execution(states, events) && WellFormed(states[0].table) && i <= |events|
    ensures Inv(states[i], Booked(events[..i]))
  {
    hide Next, Book, WellFormed;
    if i > 0 {
      EveryState(states, events, i - 1);
      StepKeeps(states[i - 1], Booked(events[..i - 1]), events[i - 1], states[i]);
      assert events[..i][..i - 1] == events[..i - 1];
    }
  }

  // ---------------------------------------------------------------------
  // The code takes these steps
  // ---------------------------------------------------------------------

  ghost function StateOf(k: Kernel): Machine
    reads k, k.heap, k.heap.entries
  {
    Machine(k.ram, k.Table(), k.Frame(0))
  }

  /** paging_new_4gb. */
  method NewSpace(k: Kernel, flags: Byte, ghost spaces: map<nat, History>) returns (chunk: nat)
    requires k.Valid() && Inv(StateOf(k), spaces) && FreeCount(k.Table()) >= SPACE_BLOCKS
    modifies k`ram, k.heap.entries
    ensures k.Valid() && Next(old(StateOf(k)), spaces, Create(chunk, flags), StateOf(k))
    ensures Inv(StateOf(k), Book(spaces, Create(chunk, flags)))
  {
    hide Live, FreeCount, Taken, Flat, IdentityMap, Frames, Formed, Inv;
    chunk := New4gb(k, flags);
    StepKeeps(old(StateOf(k)), spaces, Create(chunk, flags), StateOf(k));
  }

  /** paging_free_4gb. */
  method FreeSpace(k: Kernel, chunk: nat, ghost spaces: map<nat, History>)
    requires k.Valid() && Inv(StateOf(k), spaces) && chunk in spaces
    modifies k.heap.entries
    ensures k.Valid() && Next(old(StateOf(k)), spaces, Destroy(chunk), StateOf(k))
    ensures Inv(StateOf(k), Book(spaces, Destroy(chunk)))
  {
    hide Live, FreeCount, Released, Flat, Frames, MapsOwn;
    Free4gb(k, chunk);
    StepKeeps(old(StateOf(k)), spaces, Destroy(chunk), StateOf(k));
  }

  /** paging_set, paging_map, paging_map_range or paging_map_to. */
  method MapIn(k: Kernel, chunk: nat, op: PagingOp, ghost spaces: map<nat, History>)
    requires k.Valid() && Inv(StateOf(k), spaces) && chunk in spaces
    modifies k`ram
    ensures Next(old(StateOf(k)), spaces, Operate(chunk, op), StateOf(k))
    ensures Inv(StateOf(k), Book(spaces, Operate(chunk, op)))
  {
    hide Live, Apply, Flat, Frames, MapsOwn;
    Perform(k, chunk, op);
    StepKeeps(old(StateOf(k)), spaces, Operate(chunk, op), StateOf(k));
  }

  /** kzalloc by anyone else. */
  method AllocateFor(k: Kernel, size: Word, ghost spaces: map<nat, History>) returns (ptr: Word)
    requires k.Valid() && Inv(StateOf(k), spaces)
    requires size <= WORD_LIMIT - BLOCK_SIZE && InBounds(k.Table(), BlocksFor(size))
    modifies k`ram, k.heap.entries
    ensures k.Valid() && Next(old(StateOf(k)), spaces, Allocate(BlocksFor(size)), StateOf(k))
    ensures Inv(StateOf(k), spaces)
  {
    hide Inv, Live, StartBlock, MarkTaken, WellFormed;
    ghost var s := StartBlock(k.Table(), BlocksFor(size));
    ptr := k.Kzalloc(size);
    BlocksForIs(size);
    if s >= 0 { FilledWithin(old(k.ram), k.ram, ptr, size, k.Frame(s), BlocksFor(size)); }
    StepKeeps(old(StateOf(k)), spaces, Allocate(BlocksFor(size)), StateOf(k));
  }

  lemma FilledWithin(before: Ram, after: Ram, ptr: Word, size: nat, from: nat, n: nat)
    requires Filled(before, after, ptr, size, 0) && ptr == from * PAGE_SIZE && size <= n * PAGE_SIZE
    ensures ChangedOnly(before, after, from, n)
  {
    forall f | 0 <= f < FRAMES && !InRange(f, from, n) ensures after[f] == before[f] {
      assert f >= from ==> (from + n) * PAGE_SIZE <= f * PAGE_SIZE;
    }
  }

  /** kfree of something that belongs to no space. */
  method ReleaseFor(k: Kernel, ptr: Word, ghost spaces: map<nat, History>)
    requires k.Valid() && Inv(StateOf(k), spaces)
    requires k.heap.InPool(ptr) && ForeignBlock(StateOf(k), spaces, k.heap.Block(ptr))
    modifies k.heap.entries
    ensures k.Valid() && Next(old(StateOf(k)), spaces, Release(k.heap.Block(ptr)), StateOf(k))
    ensures Inv(StateOf(k), spaces)
  {
    hide Inv, Live, MarkFree, WellFormed;
    k.Kfree(ptr);
    StepKeeps(old(StateOf(k)), spaces, Release(k.heap.Block(ptr)), StateOf(k));
  }
}
