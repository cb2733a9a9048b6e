/**
 paging_new_4gb and paging_free_4gb: an address space built from heap blocks
 and given back to the heap.
 */
module AddressSpace {
  import opened Bits
  import opened BlockTable
  import opened HeapRuns
  import opened BlockHeap
  import opened Memory
  import opened Kheap
  import opened PageBlocks
  import opened PageTables
  import opened PagingRuns
  import opened Paging

  const SPACE_BLOCKS := PAGE_WORDS + 2

  // ---------------------------------------------------------------------
  // Building
  // ---------------------------------------------------------------------

  /** The entries of one table: consecutive frames from `offset`, with the flags. */
  function IdentityPage(offset: Word, flags: Byte): Page {
    seq(PAGE_WORDS, b requires 0 <= b < PAGE_WORDS => RangeEntry(offset, b, flags))
  }

  /** The flat map of a new space: every page maps to itself. */
  function IdentityMap(flags: Byte): PageMap {
    seq(PAGES, page requires 0 <= page < PAGES => IdentityEntry(page, flags))
  }

  function IdentityEntry(page: nat, flags: Byte): Word
    requires page < PAGES
  {
    OrIsWord(page * PAGE_SIZE, flags);
    Or(page * PAGE_SIZE, flags)
  }

  function DirectoryEntry(frame: nat, flags: Byte): Word
    requires frame < FRAMES
  {
    OrIsWord(frame * PAGE_SIZE, flags);
    OrIsWord(Or(frame * PAGE_SIZE, flags), WRITABLE);
    Or(Or(frame * PAGE_SIZE, flags), WRITABLE)
  }

  /** Masking a directory entry gives back the table it was made from: heap blocks are page-aligned. */
  lemma MaskRecoversTable(frame: nat, flags: Byte)
    requires frame < FRAMES
    ensures TableOf(DirectoryEntry(frame, flags)) == frame
  {
    hide And, Or;
    FlagsOr(frame, 0, flags);
    ZeroOr(flags);
    FlagsOr(frame, flags, WRITABLE);
    PageMask(DirectoryEntry(frame, flags));
  }

  /** Below the table's address a directory entry carries the flags and the writable bit. */
  lemma EntryCarries(frame: nat, flags: Byte)
    requires frame < FRAMES
    ensures DirectoryEntry(frame, flags) % PAGE_SIZE == Or(flags, WRITABLE)
  {
    hide And, Or;
    FlagsOr(frame, 0, flags);
    ZeroOr(flags);
    FlagsOr(frame, flags, WRITABLE);
  }

  /** The first |tables| tables are filled in and listed in the directory. */
  ghost predicate Listed(ram: Ram, dir: nat, tables: seq<nat>, flags: Byte) {
    && dir < FRAMES && |tables| <= PAGE_WORDS && NoRepeats([dir] + tables)
    && (forall j :: 0 <= j < |tables| ==>
      && tables[j] < FRAMES
      && ram[tables[j]] == IdentityPage(TableOffset(j), flags)
      && ram[dir][j] == DirectoryEntry(tables[j], flags))
  }

  ghost predicate Built(before: Ram, ram: Ram, dir: nat, tables: seq<nat>, flags: Byte) {
    Listed(ram, dir, tables, flags) && SameElsewhere(before, ram, [dir] + tables)
  }

  function TableOffset(j: nat): Word {
    j * (PAGE_WORDS * PAGE_SIZE) % WORD_LIMIT
  }

  lemma BuildOne(before: Ram, ram: Ram, after: Ram, dir: nat, tables: seq<nat>, entry: nat, flags: Byte)
    requires Built(before, ram, dir, tables, flags) && |tables| < PAGE_WORDS
    requires entry < FRAMES && entry !in [dir] + tables
    requires after[entry] == IdentityPage(TableOffset(|tables|), flags)
    requires after[dir] == ram[dir][|tables| := DirectoryEntry(entry, flags)]
    requires forall f :: 0 <= f < FRAMES && f != entry && f != dir ==> after[f] == ram[f]
    ensures Built(before, after, dir, tables + [entry], flags)
  {
    var more := tables + [entry];
    assert [dir] + more == ([dir] + tables) + [entry];
    forall j | 0 <= j < |tables| ensures tables[j] != dir && tables[j] != entry {
      assert ([dir] + tables)[0] == dir && ([dir] + tables)[j + 1] == tables[j];
    }
  }

  lemma ListedSpace(ram: Ram, dir: nat, tables: seq<nat>, flags: Byte, chunk: nat)
    requires Listed(ram, dir, tables, flags) && |tables| == PAGE_WORDS
    requires chunk < FRAMES && chunk !in [dir] + tables && ram[chunk][0] == dir * PAGE_SIZE
    ensures Frames(ram, chunk) == [chunk, dir] + tables && Formed(ram, chunk)
    ensures Flat(ram, chunk) == IdentityMap(flags) && Carries(Directory(ram, chunk), Or(flags, WRITABLE))
  {
    hide DirectoryEntry, TableOf, Or, IdentityEntry, IdentityPage;
    forall j | 0 <= j < PAGE_WORDS ensures TableFrame(ram, dir, j) == tables[j] {
      MaskRecoversTable(tables[j], flags);
    }
    forall j | 0 <= j < PAGE_WORDS ensures ram[dir][j] % PAGE_SIZE == Or(flags, WRITABLE) {
      EntryCarries(tables[j], flags);
    }
    assert [chunk, dir] + tables == [chunk] + ([dir] + tables);
    forall page | 0 <= page < PAGES ensures Flat(ram, chunk)[page] == IdentityEntry(page, flags) {
      IdentityPlace(page, flags);
    }
  }

  lemma IdentityPlace(page: nat, flags: Byte)
    requires page < PAGES
    ensures IdentityPage(TableOffset(page / PAGE_WORDS), flags)[page % PAGE_WORDS] == IdentityEntry(page, flags)
  {
    hide Or;
    var j, b := page / PAGE_WORDS, page % PAGE_WORDS;
    assert page == j * PAGE_WORDS + b;
    assert Advance(TableOffset(j), b) == page * PAGE_SIZE;
  }

  /** The inner loop of paging_new_4gb. */
  method FillTable(k: Kernel, frame: nat, offset: Word, flags: Byte)
    requires frame < FRAMES
    modifies k`ram
    ensures k.ram == old(k.ram)[frame := IdentityPage(offset, flags)]
  {
    for b := 0 to PAGE_WORDS
      invariant forall f :: 0 <= f < FRAMES && f != frame ==> k.ram[f] == old(k.ram)[f]
      invariant forall j :: 0 <= j < b ==> k.ram[frame][j] == RangeEntry(offset, j, flags)
    {
      k.ram := WithWord(k.ram, frame, b, RangeEntry(offset, b, flags));
    }
    assert k.ram[frame] == IdentityPage(offset, flags);
  }

  /** One round of the outer loop of paging_new_4gb: a filled table, listed in the directory. */
  method AddTable(
      k: Kernel, directory: nat, i: nat, offset: Word, flags: Byte,
      ghost before: Ram, ghost live0: map<nat, nat>, ghost tables: seq<nat>) returns (entry: nat)
    requires k.Valid() && FreeCount(k.Table()) > 0
    requires i == |tables| < PAGE_WORDS && offset == TableOffset(i)
    requires Taken(Live(k.Table()), live0, k.Frame(0), [directory] + tables)
    requires directory < FRAMES && Built(before, k.ram, directory, tables, flags)
    modifies k`ram, k.heap.entries
    ensures k.Valid() && FreeCount(k.Table()) + 1 == FreeCount(old(k.Table()))
    ensures Taken(Live(k.Table()), live0, k.Frame(0), [directory] + (tables + [entry]))
    ensures Built(before, k.ram, directory, tables + [entry], flags)
  {
    hide Live, FreeCount, WellFormed, DirectoryEntry, IdentityPage, TableOffset, Taken, Built;
    ghost var ram, live, base := k.ram, Live(k.Table()), k.Frame(0);
    entry := KzallocPage(k, PAGE_SIZE);
    TakeOne(live, live0, base, [directory] + tables, entry - base);
    assert [directory] + (tables + [entry]) == ([directory] + tables) + [entry];
    FillTable(k, entry, offset, flags);
    k.ram := WithWord(k.ram, directory, i, DirectoryEntry(entry, flags));
    BuildOne(before, ram, k.ram, directory, tables, entry, flags);
  }

  /** The outer loop of paging_new_4gb. */
  method AddTables(k: Kernel, directory: nat, flags: Byte, ghost before: Ram, ghost live0: map<nat, nat>)
      returns (ghost tables: seq<nat>)
    requires k.Valid() && FreeCount(k.Table()) >= PAGE_WORDS && directory < FRAMES
    requires Taken(Live(k.Table()), live0, k.Frame(0), [directory] + [])
    requires Built(before, k.ram, directory, [], flags)
    modifies k`ram, k.heap.entries
    ensures k.Valid() && |tables| == PAGE_WORDS
    ensures FreeCount(k.Table()) + PAGE_WORDS == FreeCount(old(k.Table()))
    ensures Taken(Live(k.Table()), live0, k.Frame(0), [directory] + tables)
    ensures Built(before, k.ram, directory, tables, flags)
  {
    hide Live, FreeCount, WellFormed, Taken, Built;
    var offset := 0;
    tables := [];
    for i := 0 to PAGE_WORDS
      invariant k.Valid() && |tables| == i && offset == TableOffset(i)
      invariant FreeCount(k.Table()) + i == FreeCount(old(k.Table()))
      invariant Taken(Live(k.Table()), live0, k.Frame(0), [directory] + tables)
      invariant Built(before, k.ram, directory, tables, flags)
    {
      var entry := AddTable(k, directory, i, offset, flags, before, live0, tables);
      offset := (offset + PAGE_WORDS * PAGE_SIZE) % WORD_LIMIT;
      tables := tables + [entry];
    }
  }

  /** paging_new_4gb: 1026 fresh blocks that hold an identity map. */
  method New4gb(k: Kernel, flags: Byte) returns (chunk: nat)
    requires k.Valid() && FreeCount(k.Table()) >= SPACE_BLOCKS
    modifies k`ram, k.heap.entries
    ensures k.Valid() && chunk < FRAMES && Formed(k.ram, chunk)
    ensures Flat(k.ram, chunk) == IdentityMap(flags)
    ensures forall i :: 0 <= i < PAGE_WORDS ==>
      k.ram[k.ram[chunk][0] / PAGE_SIZE][i] % PAGE_SIZE == Or(flags, WRITABLE)
    ensures Taken(Live(k.Table()), Live(old(k.Table())), k.Frame(0), Frames(k.ram, chunk))
    ensures FreeCount(k.Table()) + SPACE_BLOCKS == FreeCount(old(k.Table()))
    ensures SameElsewhere(old(k.ram), k.ram, Frames(k.ram, chunk))
  {
    hide Live, FreeCount, WellFormed, Taken, Built, Flat, IdentityMap, Frames, Formed;
    ghost var live0, base := Live(k.Table()), k.Frame(0);
    var directory := KzallocPage(k, PAGE_SIZE);
    ghost var before := old(k.ram);
    StartSpace(before, k.ram, Live(k.Table()), live0, base, directory, flags);
    ghost var tables := AddTables(k, directory, flags, before, live0);
    ghost var live, ram := Live(k.Table()), k.ram;
    chunk := KzallocPage(k, 4);
    k.ram := WithWord(k.ram, chunk, 0, directory * PAGE_SIZE);
    FinishSpace(before, ram, k.ram, live, Live(k.Table()), live0, base, directory, tables, flags, chunk);
  }

  lemma StartSpace(
      before: Ram, ram: Ram, live: map<nat, nat>, live0: map<nat, nat>, base: nat, dir: nat, flags: Byte)
    requires base <= dir < FRAMES && dir - base !in live0 && live == live0[dir - base := 1]
    requires SameElsewhere(before, ram, [dir])
    ensures Taken(live, live0, base, [dir] + []) && Built(before, ram, dir, [], flags)
  {
  }

  lemma FinishSpace(
      before: Ram, built: Ram, ram: Ram, live: map<nat, nat>, after: map<nat, nat>, live0: map<nat, nat>,
      base: nat, dir: nat, tables: seq<nat>, flags: Byte, chunk: nat)
    requires Taken(live, live0, base, [dir] + tables) && |tables| == PAGE_WORDS
    requires Built(before, built, dir, tables, flags)
    requires base <= chunk < FRAMES && chunk - base !in live && after == live[chunk - base := 1]
    requires ram[chunk][0] == dir * PAGE_SIZE
    requires SameElsewhere(built, ram, [chunk])
    ensures Formed(ram, chunk) && Flat(ram, chunk) == IdentityMap(flags)
    ensures Carries(Directory(ram, chunk), Or(flags, WRITABLE))
    ensures Taken(after, live0, base, Frames(ram, chunk))
    ensures SameElsewhere(before, ram, Frames(ram, chunk))
  {
    hide Flat, IdentityMap, Formed, Listed, Taken, NoRepeats, SameElsewhere, Frames;
    TakeOne(live, live0, base, [dir] + tables, chunk - base);
    assert chunk !in [dir] + tables;
    StillListed(built, ram, dir, tables, flags, chunk);
    ListedSpace(ram, dir, tables, flags, chunk);
    Reordered(after, live0, base, [dir] + tables, chunk);
    SameElsewhereTwo(before, built, ram, [dir] + tables, [chunk]);
    assert [chunk, dir] + tables == [chunk] + ([dir] + tables);
  }

  lemma StillListed(before: Ram, after: Ram, dir: nat, tables: seq<nat>, flags: Byte, chunk: nat)
    requires Listed(before, dir, tables, flags) && SameElsewhere(before, after, [chunk])
    requires chunk !in [dir] + tables
    ensures Listed(after, dir, tables, flags)
  {
    forall j | 0 <= j < |tables| ensures tables[j] != chunk {
      assert ([dir] + tables)[j + 1] == tables[j];
    }
    assert ([dir] + tables)[0] == dir;
  }

  lemma Reordered(live: map<nat, nat>, live0: map<nat, nat>, base: nat, frames: seq<nat>, last: nat)
    requires Taken(live, live0, base, frames + [last])
    ensures Taken(live, live0, base, [last] + frames)
  {
    assert forall f :: f in [last] + frames <==> f in frames + [last];
    var moved, was := [last] + frames, frames + [last];
    forall i, j | 0 <= i < j < |moved| ensures moved[i] != moved[j] {
      assert moved[j] == was[j - 1] && moved[i] == if i == 0 then was[|frames|] else was[i - 1];
    }
  }

  // ---------------------------------------------------------------------
  // Tearing down
  // ---------------------------------------------------------------------

  /** paging_free_4gb: exactly the blocks of the space return to the pool. */
  method Free4gb(k: Kernel, chunk: nat)
    requires k.Valid() && Formed(k.ram, chunk)
    requires Owned(Live(k.Table()), k.Frame(0), Frames(k.ram, chunk))
    modifies k.heap.entries
    ensures k.Valid()
    ensures Released(Live(k.Table()), Live(old(k.Table())), k.Frame(0), Frames(k.ram, chunk))
    ensures FreeCount(k.Table()) == FreeCount(old(k.Table())) + SPACE_BLOCKS
  {
    hide Live, FreeCount, WellFormed, Owned, Released;
    var directory := DirectoryOf(k.ram, chunk);
    ghost var live0, base, frames := Live(k.Table()), k.Frame(0), Frames(k.ram, chunk);
    NothingReleased(live0, base);
    assert frames[2..2] == [];
    for i := 0 to PAGE_WORDS
      invariant k.Valid()
      invariant Released(Live(k.Table()), live0, base, frames[2..i + 2])
      invariant FreeCount(k.Table()) == FreeCount(old(k.Table())) + i
    {
      var entry := k.ram[directory][i];
      assert TableOf(entry) == frames[i + 2];
      StillOwned(live0, Live(k.Table()), base, frames, frames[2..i + 2], i + 2);
      ReleaseNext(live0, Live(k.Table()), base, frames, frames[2..i + 2], i + 2);
      KfreePage(k, TableOf(entry));
      assert frames[2..i + 2] + [frames[i + 2]] == frames[2..i + 1 + 2];
    }
    assert frames[2..PAGE_WORDS + 2] == frames[2..];
    StillOwned(live0, Live(k.Table()), base, frames, frames[2..], 1);
    ReleaseNext(live0, Live(k.Table()), base, frames, frames[2..], 1);
    KfreePage(k, directory);
    StillOwned(live0, Live(k.Table()), base, frames, frames[2..] + [frames[1]], 0);
    ReleaseNext(live0, Live(k.Table()), base, frames, frames[2..] + [frames[1]], 0);
    KfreePage(k, chunk);
    ReleasedAll(Live(k.Table()), live0, base, frames);
  }

  lemma ReleasedAll(live: map<nat, nat>, live0: map<nat, nat>, base: nat, frames: seq<nat>)
    requires |frames| >= 2 && Released(live, live0, base, frames[2..] + [frames[1]] + [frames[0]])
    ensures Released(live, live0, base, frames)
  {
    assert frames == [frames[0], frames[1]] + frames[2..];
    assert forall f :: f in frames <==> f in frames[2..] + [frames[1]] + [frames[0]];
  }

  // ---------------------------------------------------------------------
  // The whole life of a space
  // ---------------------------------------------------------------------

  method Perform(k: Kernel, chunk: nat, op: PagingOp)
    requires Formed(k.ram, chunk)
    modifies k`ram
    ensures k.ram == Apply(old(k.ram), chunk, op) && Formed(k.ram, chunk)
  {
    match op
    case Set(virt, val) => var _ := PagingSet(k, chunk, k.ram[chunk][0], virt, val);
    case Map(virt, phys, flags) => var _ := PagingMap(k, chunk, virt, phys, flags);
    case MapRange(virt, phys, count, flags) => var _ := PagingMapRange(k, chunk, virt, phys, count, flags);
    case MapTo(virt, phys, physEnd, flags) => var _ := PagingMapTo(k, chunk, virt, phys, physEnd, flags);
  }

  /**
   Create a space, run any operations on it and free it: every byte of the
   block table is as it was.
   */
  method LifeCycle(k: Kernel, flags: Byte, ops: seq<PagingOp>)
    requires k.Valid() && FreeCount(k.Table()) >= SPACE_BLOCKS
    modifies k`ram, k.heap.entries
    ensures k.Valid() && k.Table() == old(k.Table())
  {
    hide Live, FreeCount, Taken, Owned, Released, Apply, ApplyFlat, Formed, Frames, Flat, Directory, IdentityMap;
    var chunk := New4gb(k, flags);
    ghost var base, frames, during := k.Frame(0), Frames(k.ram, chunk), Live(k.Table());
    for i := 0 to |ops|
      invariant k.Valid() && Live(k.Table()) == during
      invariant Formed(k.ram, chunk) && Frames(k.ram, chunk) == frames
    {
      ApplyRefines(k.ram, chunk, ops[i]);
      Perform(k, chunk, ops[i]);
    }
    TakenIsOwned(during, Live(old(k.Table())), base, frames);
    Free4gb(k, chunk);
    TakenThenReleased(Live(old(k.Table())), during, Live(k.Table()), base, frames, frames);
    TableIsUnique(k.Table(), old(k.Table()), Live(old(k.Table())));
  }

  /**
   The memory part of kernel start-up, the drivers' allocations left out: the heap
   comes up, and the kernel's own space takes 1026 of its 25600 blocks and maps
   all memory to itself, writable.
   */
  method KernelStart(heap: Heap, table: array<bv8>, memory: Ram) returns (k: Kernel, chunk: nat)
    requires table.Length == HEAP_SIZE_BYTES / BLOCK_SIZE
    modifies heap, table
    ensures fresh(k) && k.Valid() && k.heap == heap && chunk < FRAMES && Formed(k.ram, chunk)
    ensures Spaces(k.ram, Live(k.Table()), k.Frame(0), {chunk})
    ensures Flat(k.ram, chunk) == IdentityMap(WRITABLE + PRESENT + ACCESS_ALL)
    ensures forall page: nat, bit :: page < PAGES && bit in {PRESENT, WRITABLE, ACCESS_ALL} ==>
      Allows(k.ram, chunk, page, bit)
    ensures FreeCount(k.Table()) == 25600 - SPACE_BLOCKS
  {
    hide Live, FreeCount, Taken, Owned, Frames, Flat, IdentityMap, NoRepeats;
    KheapInit(heap, table);
    k := new Kernel(heap, memory);
    ghost var live0 := Live(k.Table());
    chunk := New4gb(k, WRITABLE + PRESENT + ACCESS_ALL);
    TakenIsOwned(Live(k.Table()), live0, k.Frame(0), Frames(k.ram, chunk));
    AllowsAll(k.ram, chunk);
  }

  // ---------------------------------------------------------------------
  // What both levels allow
  // ---------------------------------------------------------------------

  /** What the directory's bits and a page's own bits together allow. */
  lemma AllowsIff(ram: Ram, chunk: nat, bits: nat, page: nat, bit: nat)
    requires chunk < FRAMES && page < PAGES && bit < PAGE_SIZE && Carries(Directory(ram, chunk), bits)
    ensures Allows(ram, chunk, page, bit) <==> And(bits, bit) != 0 && And(Flat(ram, chunk)[page] % PAGE_SIZE, bit) != 0
  {
    hide And, Flat;
    FlagBit(Directory(ram, chunk)[page / PAGE_WORDS], bit);
    FlagBit(Flat(ram, chunk)[page], bit);
  }

  /** Seven has the three bits that this kernel uses, five all but the writable one. */
  lemma FlagValues()
    ensures And(7, PRESENT) == PRESENT && And(7, WRITABLE) == WRITABLE && And(7, ACCESS_ALL) == ACCESS_ALL
    ensures And(5, PRESENT) == PRESENT && And(5, WRITABLE) == 0 && And(5, ACCESS_ALL) == ACCESS_ALL
    ensures Or(5, WRITABLE) == 7 && Or(7, WRITABLE) == 7
  {
  }

  lemma IdentityBits(page: nat, flags: Byte)
    requires page < PAGES
    ensures IdentityEntry(page, flags) % PAGE_SIZE == flags
  {
    hide Or;
    FlagsOr(page, 0, flags);
    ZeroOr(flags);
  }

  /** An identity map with all flags allows everything everywhere. */
  lemma AllowsAll(ram: Ram, chunk: nat)
    requires chunk < FRAMES && Flat(ram, chunk) == IdentityMap(7) && Carries(Directory(ram, chunk), Or(7, WRITABLE))
    ensures forall page: nat, bit :: page < PAGES && bit in {PRESENT, WRITABLE, ACCESS_ALL} ==>
      Allows(ram, chunk, page, bit)
  {
    FlagValues();
    hide And, Or, Flat, Allows;
    forall page: nat, bit | page < PAGES && bit in {PRESENT, WRITABLE, ACCESS_ALL}
      ensures Allows(ram, chunk, page, bit)
    {
      IdentityBits(page, 7);
      AllowsIff(ram, chunk, 7, page, bit);
    }
  }

  // ---------------------------------------------------------------------
  // Many spaces over one heap
  // ---------------------------------------------------------------------

  /** Well-formed spaces that share no frame, all of whose frames are live single blocks. */
  ghost predicate Spaces(ram: Ram, live: map<nat, nat>, base: nat, chunks: set<nat>) {
    && Apart(ram, chunks)
    && forall c :: c in chunks ==> Owned(live, base, Frames(ram, c))
  }

  /** A new space shares nothing with the existing ones and changes none of their maps. */
  lemma NewJoins(
      before: Ram, ram: Ram, live0: map<nat, nat>, live: map<nat, nat>, base: nat, chunks: set<nat>, c: nat)
    requires Spaces(before, live0, base, chunks) && Formed(ram, c)
    requires Taken(live, live0, base, Frames(ram, c)) && SameElsewhere(before, ram, Frames(ram, c))
    ensures Spaces(ram, live, base, chunks + {c}) && c !in chunks
    ensures forall o :: o in chunks ==> Flat(ram, o) == Flat(before, o) && Directory(ram, o) == Directory(before, o)
  {
    hide Flat, Frames, NoRepeats;
    forall o | o in chunks
      ensures Flat(ram, o) == Flat(before, o) && Frames(ram, o) == Frames(before, o) && Formed(ram, o)
      ensures Directory(ram, o) == Directory(before, o)
      ensures Separate(ram, o, c) && Separate(ram, c, o) && Owned(live, base, Frames(ram, o))
    {
      OldSpaceUntouched(before, ram, live0, live, base, o, c);
    }
    TakenIsOwned(live, live0, base, Frames(ram, c));
    StillApart(before, ram, chunks);
    if c in chunks {
      NotItself(ram, c);
    }
  }

  lemma NotItself(ram: Ram, c: nat)
    requires c < FRAMES
    ensures !Separate(ram, c, c)
  {
    assert Frames(ram, c)[0] == c;
    assert c in Frames(ram, c);
  }

  lemma OldSpaceUntouched(
      before: Ram, ram: Ram, live0: map<nat, nat>, live: map<nat, nat>, base: nat, o: nat, c: nat)
    requires Formed(before, o) && Owned(live0, base, Frames(before, o)) && Formed(ram, c)
    requires Taken(live, live0, base, Frames(ram, c)) && SameElsewhere(before, ram, Frames(ram, c))
    ensures Flat(ram, o) == Flat(before, o) && Frames(ram, o) == Frames(before, o) && Formed(ram, o)
    ensures Directory(ram, o) == Directory(before, o)
    ensures Separate(ram, o, c) && Separate(ram, c, o) && Owned(live, base, Frames(ram, o))
  {
    hide Flat;
    FramesInRange(before, o);
    assert forall f :: f in Frames(before, o) ==> f !in Frames(ram, c);
    OwnFramesOnly(before, ram, o);
  }

  /** Freeing one space leaves the others whole. */
  lemma FreeLeaves(ram: Ram, live0: map<nat, nat>, live: map<nat, nat>, base: nat, chunks: set<nat>, c: nat)
    requires Spaces(ram, live0, base, chunks) && c in chunks
    requires Released(live, live0, base, Frames(ram, c))
    ensures Spaces(ram, live, base, chunks - {c})
  {
    hide Frames;
    forall o | o in chunks - {c} ensures Owned(live, base, Frames(ram, o)) {
      assert Separate(ram, o, c);
      assert forall f :: f in Frames(ram, o) ==> base + (f - base) == f;
    }
  }
}
