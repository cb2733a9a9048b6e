/**
 Which memory a loaded program can write, and when that is none of the page tables.
 */
module LoadedProgram {
  import opened StatusCodes
  import opened Bits
  import opened BlockTable
  import opened HeapRuns
  import opened Memory
  import opened Kheap
  import opened PageBlocks
  import opened PageTables
  import opened PagingRuns
  import opened Paging
  import opened AddressSpace
  import opened ProcessImage
  import opened ImageLayout
  import SpaceRuns

  // ---------------------------------------------------------------------
  // Where writable pages go
  // ---------------------------------------------------------------------

  /** The frame a page translates to. */
  function FrameOf(m: PageMap, page: nat): nat
    requires page < PAGES
  {
    And(m[page], 0xffff_f000) / PAGE_SIZE
  }

  /** The frame an operation gives a page it covers. */
  function TargetFrame(op: PagingOp, page: nat): nat
    requires page < PAGES
  {
    Extent(op).0 / PAGE_SIZE + (page - op.virt / PAGE_SIZE) % PAGES
  }

  /** The page is off the stack, and writable through the image's i-th operation, the last to cover it. */
  predicate Shows(image: Image, i: nat, page: nat)
    requires page < PAGES && i < |ImageOps(image)|
  {
    !StackPage(page) && LastCover(ImageOps(image), page) == i && MayWrite(image, i)
  }

  predicate Between(f: nat, from: nat, to: nat) {
    from <= f < to
  }

  lemma StackTarget(image: Image, stack: Word, page: nat)
    requires GoodStack(stack) && !Rejected(image) && page < PAGES && StackPage(page)
    ensures Writable(Loaded(image, stack)[page])
    ensures FrameOf(Loaded(image, stack), page) == stack / PAGE_SIZE + (page - STACK_END / PAGE_SIZE)
  {
    hide Writable, Or, And, Loaded, LastCover, RangeEntry, ProcessImage.Covers, EntryFrom, Rejected, ImageOps, Advance;
    CompletePageMap(image, stack, page);
    WritablePages(image, stack, page);
    var phys: Word := stack + (page - STACK_END / PAGE_SIZE) * PAGE_SIZE;
    EntryIsRange(phys, READ_WRITE);
    StackFrame(phys);
    PagesOn(stack, page - STACK_END / PAGE_SIZE);
  }

  lemma PagesOn(a: Word, n: nat)
    ensures (a + n * PAGE_SIZE) / PAGE_SIZE == a / PAGE_SIZE + n
    ensures (a + n * PAGE_SIZE) % PAGE_SIZE == a % PAGE_SIZE
  {
  }

  lemma StackFrame(phys: Word)
    requires phys % PAGE_SIZE == 0
    ensures Writable(RangeEntry(phys, 0, READ_WRITE)) && And(RangeEntry(phys, 0, READ_WRITE), 0xffff_f000) == phys
  {
    hide Writable, And, RangeEntry, Advance;
    EntryWritable(phys, 0, READ_WRITE);
    AdvanceSmall(phys, 0);
  }

  lemma ImageTarget(image: Image, stack: Word, i: nat, page: nat)
    requires GoodStack(stack) && !Rejected(image) && page < PAGES && i < |ImageOps(image)| && Shows(image, i, page)
    ensures Writable(Loaded(image, stack)[page])
    ensures var op := ImageOps(image)[i];
      && FrameOf(Loaded(image, stack), page) == TargetFrame(op, page)
      && op.MapTo? && Between(TargetFrame(op, page), op.phys / PAGE_SIZE, op.physEnd / PAGE_SIZE)
  {
    hide Writable, Or, And, Loaded, LastCover, RangeEntry, ProcessImage.Covers, EntryFrom, Rejected, ImageOps, Advance, MayWrite;
    CompletePageMap(image, stack, page);
    WritablePages(image, stack, page);
    ImageOpFlags(image, i, page);
    ImageOpRange(image, i, page);
    var op := ImageOps(image)[i];
    var k := (page - op.virt / PAGE_SIZE) % PAGES;
    EntryWritable(op.phys, k, op.flags);
    AdvanceSmall(op.phys, k);
  }

  lemma ImageOpRange(image: Image, i: nat, page: nat)
    requires page < PAGES && i < |ImageOps(image)| && ProcessImage.Covers(ImageOps(image)[i], page)
    ensures var op := ImageOps(image)[i];
      && op.MapTo? && op.phys % PAGE_SIZE == 0 && op.physEnd % PAGE_SIZE == 0
      && op.phys + (page - op.virt / PAGE_SIZE) % PAGES * PAGE_SIZE < op.physEnd
  {
    hide RangeEntry, And, PageUp;
  }

  /**
   Every writable page goes to its page of the stack block, or to the frame that the
   last operation on it, which allows writing, maps it to.
   */
  lemma WritableTarget(image: Image, stack: Word, page: nat)
    requires GoodStack(stack) && !Rejected(image) && page < PAGES && Writable(Loaded(image, stack)[page])
    ensures var f, last := FrameOf(Loaded(image, stack), page), LastCover(ImageOps(image), page);
      if StackPage(page) then f == stack / PAGE_SIZE + (page - STACK_END / PAGE_SIZE)
      else last >= 0 && Shows(image, last, page) && f == TargetFrame(ImageOps(image)[last], page)
  {
    hide Writable, Loaded, LastCover, Rejected, ImageOps, FrameOf, TargetFrame;
    WritablePages(image, stack, page);
    if StackPage(page) {
      StackTarget(image, stack, page);
    } else {
      ImageTarget(image, stack, LastCover(ImageOps(image), page), page);
    }
  }

  /** The same in terms of the headers: the last segment on a page off the stack, if it has PF_W. */
  lemma ShowsIff(memory: Word, phdrs: seq<Phdr>, i: nat, page: nat)
    requires i < |phdrs| && page < PAGES
    ensures Shows(Elf(memory, phdrs), i, page) <==>
      !(0x3fb <= page < 0x3ff) && LastSegment(memory, phdrs, i, page) && phdrs[i].flags / 2 % 2 == 1
    ensures TargetFrame(ImageOps(Elf(memory, phdrs))[i], page)
      == (memory + phdrs[i].offset) % WORD_LIMIT / 4096 + (page - phdrs[i].vaddr / 4096) % PAGES
  {
    hide And, InSegment, ProcessImage.Covers, LastCover, PhdrOps, PageUp;
    LastIs(memory, phdrs, page);
    AndTwo(phdrs[i].flags);
    assert LastSegment(memory, phdrs, i, page) ==> LastCover(PhdrOps(memory, phdrs), page) == i;
    PageOfPageDown(phdrs[i].vaddr);
    PageOfPageDown(PhysAddress(memory, phdrs[i]));
  }

  // ---------------------------------------------------------------------
  // What both levels allow a program
  // ---------------------------------------------------------------------

  /** A page's own bits after a load. */
  lemma PageBits(image: Image, stack: Word, page: nat)
    requires GoodStack(stack) && !Rejected(image) && page < PAGES
    ensures Loaded(image, stack)[page] % PAGE_SIZE
      == if StackPage(page) || MayWrite(image, LastCover(ImageOps(image), page)) then 7 else 5
  {
    hide Or, And, Loaded, LastCover, RangeEntry, ProcessImage.Covers, EntryFrom, Rejected, ImageOps, Advance;
    var last := LastCover(ImageOps(image), page);
    CompletePageMap(image, stack, page);
    StackEntry(stack, page);
    IdentityEntryIs(page);
    if !StackPage(page) && last >= 0 {
      var op := ImageOps(image)[last];
      ImageOpFlags(image, last, page);
      EntrySum(op.phys, (page - op.virt / PAGE_SIZE) % PAGES, op.flags);
      AdvanceOne(op.phys, (page - op.virt / PAGE_SIZE) % PAGES);
    }
  }

  /**
   With both levels read: a loaded program may read every page, and write exactly the
   stack, the binary and the pages whose last header has PF_W.
   */
  lemma ProgramAllows(ram: Ram, chunk: nat, image: Image, stack: Word, page: nat)
    requires chunk < FRAMES && Flat(ram, chunk) == Loaded(image, stack) && Carries(Directory(ram, chunk), 7)
    requires GoodStack(stack) && !Rejected(image) && page < PAGES
    ensures Allows(ram, chunk, page, PRESENT) && Allows(ram, chunk, page, ACCESS_ALL)
    ensures Allows(ram, chunk, page, WRITABLE) <==>
      StackPage(page) || MayWrite(image, LastCover(ImageOps(image), page))
  {
    FlagValues();
    hide Allows, And, Or, Flat, Loaded, LastCover, Rejected, ImageOps, MayWrite;
    PageBits(image, stack, page);
    AllowsIff(ram, chunk, 7, page, PRESENT);
    AllowsIff(ram, chunk, 7, page, ACCESS_ALL);
    AllowsIff(ram, chunk, 7, page, WRITABLE);
  }

  // ---------------------------------------------------------------------
  // Frames out of reach
  // ---------------------------------------------------------------------

  /** No writable page translates to one of the frames. */
  ghost predicate OutOfReach(m: PageMap, frames: seq<nat>) {
    forall page: nat :: page < PAGES && Writable(m[page]) ==> FrameOf(m, page) !in frames
  }

  /** None of the frames is a page of the stack. */
  ghost predicate OffStack(stack: Word, frames: seq<nat>) {
    forall f :: f in frames ==> !Between(f, stack / PAGE_SIZE, stack / PAGE_SIZE + 4)
  }

  /** No page shows one of the frames through a writable operation. */
  ghost predicate MissedBy(image: Image, frames: seq<nat>) {
    forall i: nat, page: nat :: i < |ImageOps(image)| && page < PAGES && Shows(image, i, page) ==>
      TargetFrame(ImageOps(image)[i], page) !in frames
  }

  /**
   A loaded program can write none of the frames if and only if they lie off its
   stack and off what its writable headers, where not covered over, are mapped to.
   */
  lemma OutOfReachIff(image: Image, stack: Word, frames: seq<nat>)
    requires GoodStack(stack) && !Rejected(image)
    ensures OutOfReach(Loaded(image, stack), frames) <==> OffStack(stack, frames) && MissedBy(image, frames)
  {
    hide Writable, Loaded, ImageOps, Rejected, FrameOf, TargetFrame, Shows;
    if OffStack(stack, frames) && MissedBy(image, frames) {
      forall page: nat | page < PAGES && Writable(Loaded(image, stack)[page])
        ensures FrameOf(Loaded(image, stack), page) !in frames
      {
        WritableTarget(image, stack, page);
      }
    }
    if OutOfReach(Loaded(image, stack), frames) {
      forall f | f in frames ensures !Between(f, stack / PAGE_SIZE, stack / PAGE_SIZE + 4) {
        if Between(f, stack / PAGE_SIZE, stack / PAGE_SIZE + 4) {
          StackTarget(image, stack, STACK_END / PAGE_SIZE + f - stack / PAGE_SIZE);
        }
      }
      forall i: nat, page: nat | i < |ImageOps(image)| && page < PAGES && Shows(image, i, page)
        ensures TargetFrame(ImageOps(image)[i], page) !in frames
      {
        ImageTarget(image, stack, i, page);
      }
    }
  }

  // ---------------------------------------------------------------------
  // Page tables out of reach
  // ---------------------------------------------------------------------

  /**
   What writable headers, where not covered over, are mapped to lies in the image's
   n blocks from `code`, in the stack's four from `room`, or outside the pool.
   */
  ghost predicate StaysInside(image: Image, base: nat, total: nat, code: nat, n: nat, room: nat) {
    forall i: nat, page: nat :: i < |ImageOps(image)| && page < PAGES && Shows(image, i, page) ==>
      Inside(TargetFrame(ImageOps(image)[i], page), base, total, code, n, room)
  }

  predicate Inside(f: nat, base: nat, total: nat, code: nat, n: nat, room: nat) {
    || Between(f, base + code, base + code + n)
    || Between(f, base + room, base + room + 4)
    || !Between(f, base, base + total)
  }

  /** A heap in which the image has n blocks from `code` and the stack four from `room`. */
  ghost predicate Holding(t: Table, total: nat, code: nat, n: nat, room: nat) {
    WellFormed(t) && |t| == total && Has(Live(t), code, n) && Has(Live(t), room, 4)
  }

  predicate Has(live: map<nat, nat>, s: nat, n: nat) {
    s in live && live[s] == n
  }

  /** A space made of single blocks of the heap, none of them the image's. */
  ghost predicate SpaceIn(t: Table, base: nat, code: nat, ram: Ram, chunk: nat) {
    Formed(ram, chunk) && Owned(Live(t), base, Frames(ram, chunk)) && base + code !in Frames(ram, chunk)
  }

  /** Then no page the program can write reaches a page table, directory or chunk of a space the heap owns. */
  lemma TablesOutOfReach(
      t: Table, base: nat, frames: seq<nat>, image: Image, stack: Word, code: nat, n: nat, room: nat)
    requires Holding(t, |t|, code, n, room) && Owned(Live(t), base, frames) && base + code !in frames
    requires stack == (base + room) * PAGE_SIZE && StaysInside(image, base, |t|, code, n, room)
    requires GoodStack(stack) && !Rejected(image)
    ensures OutOfReach(Loaded(image, stack), frames)
  {
    hide Live, Holding, Owned, Loaded, ImageOps, Rejected, FrameOf, TargetFrame, Shows, OutOfReach;
    forall f | f in frames ensures !Inside(f, base, |t|, code, n, room) {
      FrameStrays(t, base, frames, f, code, n, room);
    }
    OutOfReachIff(image, stack, frames);
  }

  /** A live block of its own lies in the pool and in no other allocation. */
  lemma OtherBlock(t: Table, b: nat, s: nat)
    requires WellFormed(t) && Has(Live(t), b, 1) && s in Live(t) && b != s
    ensures !Between(b, s, s + Live(t)[s]) && b < |t|
  {
    hide Represents, Live;
    if b < s { LiveDisjoint(t, Live(t), b, s); } else { LiveDisjoint(t, Live(t), s, b); }
  }

  lemma FrameStrays(t: Table, base: nat, frames: seq<nat>, f: nat, code: nat, n: nat, room: nat)
    requires Holding(t, |t|, code, n, room) && Owned(Live(t), base, frames) && f in frames && base + code !in frames
    ensures !Inside(f, base, |t|, code, n, room)
  {
    hide Live, WellFormed;
    var b := f - base;
    assert base + b == f;
    OtherBlock(t, b, code);
    OtherBlock(t, b, room);
  }

  // ---------------------------------------------------------------------
  // The condition is exact
  // ---------------------------------------------------------------------

  /** Any number of further single blocks, while enough are free. */
  lemma {:induction false} TakeMany(t: Table, live0: map<nat, nat>, base: nat, frames: seq<nat>, k: nat)
      returns (u: Table, more: seq<nat>)
    requires WellFormed(t) && Taken(Live(t), live0, base, frames) && FreeCount(t) >= k
    requires forall f :: f in frames ==> Between(f, base, base + |t|)
    ensures WellFormed(u) && |u| == |t| && Taken(Live(u), live0, base, more)
    ensures frames <= more && |more| == |frames| + k
    ensures forall f :: f in more ==> Between(f, base, base + |t|)
    decreases k
  {
    hide Live, WellFormed, FreeCount, StartBlock, MarkTaken, Taken;
    if k == 0 {
      u, more := t, frames;
    } else {
      OneBlockAvailable(t);
      TakeStep(t, 1);
      var (v, s) := MallocBlocks(t, 1);
      TakeOne(Live(t), live0, base, frames, s);
      u, more := TakeMany(v, live0, base, frames + [base + s], k - 1);
    }
  }

  /** A heap with the two blocks and nothing else. */
  lemma TwoBlocks(total: nat, code: nat, n: nat, room: nat) returns (t: Table)
    requires n >= 1 && code + n <= total && room + 4 <= total && (code + n <= room || room + 4 <= code)
    ensures WellFormed(t) && |t| == total && FreeCount(t) == total - n - 4
    ensures Live(t) == map[code := n, room := 4]
  {
    var empty: Table := seq(total, _ => FREE);
    FreshTable(empty);
    hide Live, WellFormed, FreeCount;
    TakeAt(empty, code, n);
    var one := MarkTaken(empty, code, n);
    assert FreeRun(one, room, 4);
    TakeAt(one, room, 4);
    t := MarkTaken(one, room, 4);
    assert map[][code := n][room := 4] == map[code := n, room := 4];
  }

  function PointerPage(dir: nat): Page
    requires dir < FRAMES
  {
    seq(PAGE_WORDS, j requires 0 <= j < PAGE_WORDS => if j == 0 then dir * PAGE_SIZE else 0)
  }

  function EntryFor(tables: seq<nat>, j: nat): Word
    requires j < |tables| && tables[j] < FRAMES
  {
    DirectoryEntry(tables[j], 0)
  }

  predicate AllFrames(tables: seq<nat>) {
    forall j :: 0 <= j < |tables| ==> tables[j] < FRAMES
  }

  function DirectoryPage(tables: seq<nat>): Page
    requires |tables| == PAGE_WORDS && AllFrames(tables)
  {
    seq(PAGE_WORDS, j requires 0 <= j < PAGE_WORDS => EntryFor(tables, j))
  }

  /** Any 1026 frames can make up a space. */
  lemma SpaceOf(frames: seq<nat>) returns (ram: Ram)
    requires |frames| == SPACE_BLOCKS && NoRepeats(frames) && forall f :: f in frames ==> f < FRAMES
    ensures frames[0] < FRAMES && Formed(ram, frames[0]) && Frames(ram, frames[0]) == frames
  {
    hide DirectoryEntry;
    var chunk, dir, tables := frames[0], frames[1], frames[2..];
    assert chunk in frames && dir in frames && chunk != dir;
    forall j | 0 <= j < PAGE_WORDS ensures tables[j] < FRAMES {
      assert tables[j] == frames[j + 2] && frames[j + 2] in frames;
    }
    var zeros: Ram := seq<Page>(FRAMES, _ => ZERO_PAGE);
    ram := zeros[dir := DirectoryPage(tables)][chunk := PointerPage(dir)];
    ListedFrames(ram, chunk, dir, tables);
    assert frames == [chunk, dir] + tables;
  }

  lemma ListedFrames(ram: Ram, chunk: nat, dir: nat, tables: seq<nat>)
    requires chunk < FRAMES && dir < FRAMES && |tables| == PAGE_WORDS && AllFrames(tables)
    requires ram[chunk] == PointerPage(dir) && ram[dir] == DirectoryPage(tables)
    ensures Frames(ram, chunk) == [chunk, dir] + tables
    ensures ram[chunk][0] % PAGE_SIZE == 0
  {
    hide DirectoryEntry, TableOf;
    forall j | 0 <= j < PAGE_WORDS ensures TableFrame(ram, dir, j) == tables[j] {
      MaskRecoversTable(tables[j], 0);
    }
  }

  /** The two blocks and one more, off them. */
  lemma ThreeBlocks(base: nat, total: nat, code: nat, n: nat, room: nat, f: nat) returns (t: Table)
    requires n >= 1 && code + n <= total && room + 4 <= total && (code + n <= room || room + 4 <= code)
    requires !Inside(f, base, total, code, n, room)
    ensures WellFormed(t) && |t| == total && FreeCount(t) == total - n - 5
    ensures Taken(Live(t), map[code := n, room := 4], base, [f])
  {
    hide Live, WellFormed, FreeCount, MarkTaken, Taken;
    var two := TwoBlocks(total, code, n, room);
    FreeBlock(two, code, n, room, f - base);
    TakeAt(two, f - base, 1);
    TakenFirst(Live(two), base, f);
    t := MarkTaken(two, f - base, 1);
  }

  /** Any frame of the pool off the two blocks can be the chunk of a space on a heap that has them. */
  lemma StraySpace(base: nat, total: nat, code: nat, n: nat, room: nat, f: nat) returns (t: Table, ram: Ram)
    requires n >= 1 && code + n <= total && room + 4 <= total && (code + n <= room || room + 4 <= code)
    requires base + total <= FRAMES && n + 4 + SPACE_BLOCKS <= total && !Inside(f, base, total, code, n, room)
    ensures Holding(t, total, code, n, room) && SpaceIn(t, base, code, ram, f)
    ensures f in Frames(ram, f)
  {
    hide Live, WellFormed, FreeCount, Taken, Formed, NoRepeats, Frames, Owned;
    var three := ThreeBlocks(base, total, code, n, room, f);
    var live0 := map[code := n, room := 4];
    var frames;
    t, frames := TakeMany(three, live0, base, [f], SPACE_BLOCKS - 1);
    assert frames[0] == f;
    TakenIsOwned(Live(t), live0, base, frames);
    StillHolding(Live(t), live0, base, frames, code, n, room);
    ram := SpaceOf(frames);
  }

  lemma StillHolding(
      live: map<nat, nat>, live0: map<nat, nat>, base: nat, frames: seq<nat>, code: nat, n: nat, room: nat)
    requires Taken(live, live0, base, frames) && Has(live0, code, n) && Has(live0, room, 4)
    ensures Has(live, code, n) && Has(live, room, 4) && base + code !in frames && NoRepeats(frames)
  {
  }

  lemma TakenFirst(live: map<nat, nat>, base: nat, f: nat)
    requires f >= base && f - base !in live
    ensures Taken(live[f - base := 1], live, base, [f])
  {
  }

  lemma FreeBlock(t: Table, code: nat, n: nat, room: nat, b: nat)
    requires WellFormed(t) && Live(t) == map[code := n, room := 4] && b < |t|
    requires !Between(b, code, code + n) && !Between(b, room, room + 4)
    ensures FreeRun(t, b, 1)
  {
    hide Live;
    assert Unused(Live(t), |t|, b, 1);
    FreeRunIff(t, Live(t), b, 1);
  }

  /**
   The exact condition, which depends on the headers and the two blocks only: a
   loaded program can write no page table of any space, on any heap that holds its
   image and stack and has room for a space, if and only if what its writable headers
   are mapped to stays inside the two blocks or outside the pool.
   */
  lemma TablesOutOfReachIff(
      base: nat, total: nat, code: nat, n: nat, room: nat, image: Image, stack: Word)
    requires n >= 1 && code + n <= total && room + 4 <= total && (code + n <= room || room + 4 <= code)
    requires base + total <= FRAMES && n + 4 + SPACE_BLOCKS <= total
    requires stack == (base + room) * PAGE_SIZE && GoodStack(stack) && !Rejected(image)
    ensures StaysInside(image, base, total, code, n, room) <==>
      forall t: Table, ram: Ram, chunk: nat ::
        Holding(t, total, code, n, room) && SpaceIn(t, base, code, ram, chunk) ==>
          OutOfReach(Loaded(image, stack), Frames(ram, chunk))
  {
    hide Live, WellFormed, Loaded, Rejected, OutOfReach, Shows, TargetFrame, ImageOps, Frames, Inside;
    if StaysInside(image, base, total, code, n, room) {
      forall t: Table, ram: Ram, chunk: nat
        | Holding(t, total, code, n, room) && SpaceIn(t, base, code, ram, chunk)
        ensures OutOfReach(Loaded(image, stack), Frames(ram, chunk))
      {
        TablesOutOfReach(t, base, Frames(ram, chunk), image, stack, code, n, room);
      }
    } else {
      var i: nat, page: nat :| i < |ImageOps(image)| && page < PAGES && Shows(image, i, page)
        && !Inside(TargetFrame(ImageOps(image)[i], page), base, total, code, n, room);
      var f := TargetFrame(ImageOps(image)[i], page);
      var t, ram := StraySpace(base, total, code, n, room, f);
      OutOfReachIff(image, stack, Frames(ram, f));
      assert !OutOfReach(Loaded(image, stack), Frames(ram, f));
    }
  }

  /**
   A header of one file block and six pages of memory: the sixth goes to the frame
   behind the stack block, which on the kernel's heap can be the chunk of a space.
   */
  lemma OverlongSegment() returns (t: Table, ram: Ram)
    ensures var image, stack: Word := Elf(HEAP_ADDRESS, [Phdr(0, 0x40_0000, 0x6000, PF_W)]), HEAP_ADDRESS + 0x1000;
      && GoodStack(stack) && !Rejected(image) && !StaysInside(image, 0x1000, 25600, 0, 1, 1)
      && Holding(t, 25600, 0, 1, 1) && SpaceIn(t, 0x1000, 0, ram, 0x1005)
      && !OutOfReach(Loaded(image, stack), Frames(ram, 0x1005))
  {
    hide Loaded, Live, WellFormed, OutOfReach, Frames, Formed, Owned, And;
    var ph := Phdr(0, 0x40_0000, 0x6000, PF_W);
    var image, stack: Word := Elf(HEAP_ADDRESS, [ph]), HEAP_ADDRESS + 0x1000;
    SixthPage(image, ph);
    t, ram := StraySpace(0x1000, 25600, 0, 1, 1, 0x1005);
    OutOfReachIff(image, stack, Frames(ram, 0x1005));
    assert TargetFrame(ImageOps(image)[0], 0x405) in Frames(ram, 0x1005);
  }

  lemma SixthPage(image: Image, ph: Phdr)
    requires ph == Phdr(0, 0x40_0000, 0x6000, PF_W) && image == Elf(HEAP_ADDRESS, [ph])
    ensures !Rejected(image) && |ImageOps(image)| == 1
    ensures Shows(image, 0, 0x405) && TargetFrame(ImageOps(image)[0], 0x405) == 0x1005
  {
    hide Status, Extent, PageUp, And;
    AndTwo(PF_W);
    var ops := ImageOps(image);
    SegmentExtent(ph.vaddr, PhysAddress(HEAP_ADDRESS, ph), ph.memsz, PhdrFlags(ph));
    assert ops == [PhdrOp(HEAP_ADDRESS, ph)];
    assert FirstError(ops) == 1 + FirstError(ops[1..]);
    assert ProcessImage.Covers(ops[0], 0x405);
  }

  // ---------------------------------------------------------------------
  // What a program's stores do to the spaces
  // ---------------------------------------------------------------------

  /** Memory is as before but for one frame. */
  ghost predicate ChangedAt(before: Ram, after: Ram, f: nat) {
    forall g :: 0 <= g < FRAMES && g != f ==> after[g] == before[g]
  }

  /**
   A store through a writable page of a loaded program is a step that the spaces
   survive: into its image or stack block, or outside the pool.
   */
  lemma ProgramStore(
      m: SpaceRuns.Machine, spaces: map<nat, SpaceRuns.History>, image: Image, stack: Word,
      code: nat, n: nat, room: nat, page: nat, after: Ram) returns (e: SpaceRuns.Event)
    requires SpaceRuns.Inv(m, spaces) && Holding(m.table, |m.table|, code, n, room)
    requires SpaceRuns.ForeignBlock(m, spaces, code) && SpaceRuns.ForeignBlock(m, spaces, room)
    requires stack == (m.base + room) * PAGE_SIZE && StaysInside(image, m.base, |m.table|, code, n, room)
    requires GoodStack(stack) && !Rejected(image) && page < PAGES && Writable(Loaded(image, stack)[page])
    requires ChangedAt(m.ram, after, FrameOf(Loaded(image, stack), page))
    ensures e.Store? || e.StoreOutside?
    ensures SpaceRuns.Next(m, spaces, e, m.(ram := after)) && SpaceRuns.Inv(m.(ram := after), spaces)
  {
    hide Live, WellFormed, Loaded, Rejected, Writable, FrameOf, TargetFrame, Frames, Shows, ImageOps,
         SpaceRuns.Inv, SpaceRuns.ForeignBlock;
    WritableTarget(image, stack, page);
    var f := FrameOf(Loaded(image, stack), page);
    if Between(f, m.base + code, m.base + code + n) {
      e := SpaceRuns.Store(code);
    } else if Between(f, m.base + room, m.base + room + 4) {
      e := SpaceRuns.Store(room);
    } else {
      e := SpaceRuns.StoreOutside;
    }
    SpaceRuns.StepKeeps(m, spaces, e, m.(ram := after));
  }

  // ---------------------------------------------------------------------
  // Loading
  // ---------------------------------------------------------------------

  /** Image and stack lie in live blocks, and what writable headers are mapped to stays inside them. */
  ghost predicate Backed(
      live: map<nat, nat>, base: nat, total: nat, image: Image, stack: Word, code: nat, n: nat, room: nat)
  {
    && Has(live, code, n) && Has(live, room, 4) && stack == (base + room) * PAGE_SIZE
    && StaysInside(image, base, total, code, n, room)
  }

  /** A space made after the image and stack blocks is out of its own program's reach. */
  lemma NewTablesOutOfReach(
      t: Table, live0: map<nat, nat>, base: nat, frames: seq<nat>, image: Image, stack: Word,
      code: nat, n: nat, room: nat)
    requires WellFormed(t) && Taken(Live(t), live0, base, frames)
    requires Backed(live0, base, |t|, image, stack, code, n, room) && GoodStack(stack) && !Rejected(image)
    ensures OutOfReach(Loaded(image, stack), frames)
  {
    hide Live, WellFormed, Loaded, Rejected, StaysInside, OutOfReach, Taken;
    TakenIsOwned(Live(t), live0, base, frames);
    StillHolding(Live(t), live0, base, frames, code, n, room);
    TablesOutOfReach(t, base, frames, image, stack, code, n, room);
  }

  lemma DirectoryCarries(ram: Ram, chunk: nat, bits: nat)
    requires chunk < FRAMES
    requires forall i :: 0 <= i < PAGE_WORDS ==> ram[ram[chunk][0] / PAGE_SIZE][i] % PAGE_SIZE == bits
    ensures Carries(Directory(ram, chunk), bits)
  {
  }

  /**
   The address-space part of process_load_for_slot: the directory of task_init,
   then process_map_memory.
   */
  method LoadImage(k: Kernel, image: Image, stack: Word) returns (chunk: nat, res: int)
    requires k.Valid() && FreeCount(k.Table()) >= SPACE_BLOCKS
    modifies k`ram, k.heap.entries
    ensures k.Valid() && chunk < FRAMES && Formed(k.ram, chunk)
    ensures Taken(Live(k.Table()), Live(old(k.Table())), k.Frame(0), Frames(k.ram, chunk))
    ensures res == if Rejected(image) then -EINVARG else 0
    ensures res == 0 ==> Flat(k.ram, chunk) == Loaded(image, stack)
    ensures res == 0 && GoodStack(stack) ==>
      forall page: nat :: page < PAGES ==>
        && Allows(k.ram, chunk, page, PRESENT) && Allows(k.ram, chunk, page, ACCESS_ALL)
        && (Allows(k.ram, chunk, page, WRITABLE) <==>
              StackPage(page) || MayWrite(image, LastCover(ImageOps(image), page)))
    ensures res == 0 && GoodStack(stack) ==>
      forall code, n, room ::
        Backed(Live(old(k.Table())), k.Frame(0), |k.Table()|, image, stack, code, n, room) ==>
          OutOfReach(Flat(k.ram, chunk), Frames(k.ram, chunk))
    ensures SameElsewhere(old(k.ram), k.ram, Frames(k.ram, chunk))
  {
    hide Live, FreeCount, Taken, Frames, Flat, FlatOps, RunOps, MemoryOps, Rejected, IdentityMap, Backed, OutOfReach;
    hide Directory, Allows, LastCover, MayWrite, ImageOps, And;
    FlagValues();
    chunk := New4gb(k, READ_ONLY);
    assert Carries(Directory(k.ram, chunk), 7) by { DirectoryCarries(k.ram, chunk, 7); }
    RunOpsRefines(k.ram, chunk, MemoryOps(image, stack));
    RunOpsTouches(k.ram, chunk, MemoryOps(image, stack));
    res := MapMemory(k, chunk, image, stack);
    if res == 0 && GoodStack(stack) {
      forall page: nat | page < PAGES
        ensures Allows(k.ram, chunk, page, PRESENT) && Allows(k.ram, chunk, page, ACCESS_ALL)
        ensures Allows(k.ram, chunk, page, WRITABLE) <==>
          StackPage(page) || MayWrite(image, LastCover(ImageOps(image), page))
      {
        ProgramAllows(k.ram, chunk, image, stack, page);
      }
    }
    ghost var live0, total := Live(old(k.Table())), |k.Table()|;
    forall code, n, room | Backed(live0, k.Frame(0), total, image, stack, code, n, room) && res == 0 && GoodStack(stack)
      ensures OutOfReach(Flat(k.ram, chunk), Frames(k.ram, chunk))
    {
      NewTablesOutOfReach(k.Table(), live0, k.Frame(0), Frames(k.ram, chunk), image, stack, code, n, room);
    }
  }
}
