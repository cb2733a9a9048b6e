/**
 How process.c lays a program out in its address space: the ELF program headers
 or the binary image, then the stack, over a read-only identity map.
 */
module ProcessImage {
  import opened StatusCodes
  import opened Bits
  import opened Memory
  import opened Kheap
  import opened PageBlocks
  import opened PageTables
  import opened PagingRuns
  import opened Paging
  import opened AddressSpace

  const PROGRAM_ADDRESS: Word := 0x40_0000
  const STACK_SIZE: Word := 1024 * 16
  const STACK_END: Word := 0x3f_f000 - STACK_SIZE
  const PF_W := 0x2

  const READ_ONLY: Byte := PRESENT + ACCESS_ALL
  const READ_WRITE: Byte := PRESENT + ACCESS_ALL + WRITABLE

  /** The program header fields the mapping uses; p_offset is a signed word. */
  datatype Phdr = Phdr(offset: int, vaddr: Word, memsz: Word, flags: Word)

  datatype Image =
    | Elf(memory: Word, phdrs: seq<Phdr>)
    | Binary(ptr: Word, size: Word)

  // ---------------------------------------------------------------------
  // Addresses
  // ---------------------------------------------------------------------

  /** paging_align_to_lower_page. */
  function PageDown(a: Word): Word {
    a - a % PAGE_SIZE
  }

  /** paging_align_address, in 32-bit arithmetic. */
  function PageUp(a: Word): Word {
    if a % PAGE_SIZE != 0 then (a + PAGE_SIZE - a % PAGE_SIZE) % WORD_LIMIT else a
  }

  /** elf_phdr_phys_address. */
  function PhysAddress(memory: Word, ph: Phdr): Word {
    (memory + ph.offset) % WORD_LIMIT
  }

  /** The physical address the page tables give a virtual one. */
  function Translate(m: PageMap, a: Word): Word {
    PageMask(m[a / PAGE_SIZE]);
    And(m[a / PAGE_SIZE], 0xffff_f000) + a % PAGE_SIZE
  }

  predicate Writable(entry: Word) {
    And(entry, WRITABLE) != 0
  }

  // ---------------------------------------------------------------------
  // The mapping operations of an image
  // ---------------------------------------------------------------------

  function PhdrFlags(ph: Phdr): Byte {
    if And(ph.flags, PF_W) != 0 then READ_WRITE else READ_ONLY
  }

  /** The operation that maps the pages of `size` bytes at `phys` to those at `virt`. */
  function SegmentOp(virt: Word, phys: Word, size: Word, flags: Byte): PagingOp {
    MapTo(PageDown(virt), PageDown(phys), PageUp((phys + size) % WORD_LIMIT), flags)
  }

  function PhdrOp(memory: Word, ph: Phdr): PagingOp {
    SegmentOp(ph.vaddr, PhysAddress(memory, ph), ph.memsz, PhdrFlags(ph))
  }

  function PhdrOps(memory: Word, phdrs: seq<Phdr>): (r: seq<PagingOp>)
    ensures |r| == |phdrs| && forall i :: 0 <= i < |r| ==> r[i] == PhdrOp(memory, phdrs[i])
  {
    seq(|phdrs|, i requires 0 <= i < |phdrs| => PhdrOp(memory, phdrs[i]))
  }

  function BinaryOp(ptr: Word, size: Word): PagingOp {
    MapTo(PROGRAM_ADDRESS, ptr, PageUp((ptr + size) % WORD_LIMIT), READ_WRITE)
  }

  function StackOp(stack: Word): PagingOp {
    MapTo(STACK_END, stack, PageUp((stack + STACK_SIZE) % WORD_LIMIT), READ_WRITE)
  }

  function ImageOps(image: Image): seq<PagingOp> {
    match image
    case Elf(memory, phdrs) => PhdrOps(memory, phdrs)
    case Binary(ptr, size) => [BinaryOp(ptr, size)]
  }

  /** The index of the first operation that fails, or the length. */
  function FirstError(ops: seq<PagingOp>): (r: nat)
    ensures r <= |ops| && forall i :: 0 <= i < r ==> Status(ops[i]) == 0
    ensures r < |ops| ==> Status(ops[r]) < 0
  {
    if ops == [] || Status(ops[0]) < 0 then 0 else 1 + FirstError(ops[1..])
  }

  // ---------------------------------------------------------------------
  // Mapping it
  // ---------------------------------------------------------------------

  /** process_map_elf: headers in order, stopping at the first that cannot be mapped. */
  method MapElf(k: Kernel, chunk: nat, memory: Word, phdrs: seq<Phdr>) returns (res: int)
    requires Formed(k.ram, chunk)
    modifies k`ram
    ensures Formed(k.ram, chunk)
    ensures var ops := PhdrOps(memory, phdrs);
      && k.ram == RunOps(old(k.ram), chunk, ops[..FirstError(ops)])
      && res == if FirstError(ops) == |ops| then 0 else -EINVARG
  {
    hide RunOps, FlatOps, Apply, ApplyFlat, Flat, Frames, NoRepeats, And, PageUp, Extent;
    ghost var ops := PhdrOps(memory, phdrs);
    res := 0;
    assert RunOps(k.ram, chunk, ops[..0]) == k.ram by {
      RunOneMore(k.ram, chunk, [], StackOp(0));
      assert ops[..0] == [];
    }
    for i := 0 to |phdrs|
      invariant Formed(k.ram, chunk) && res == 0
      invariant k.ram == RunOps(old(k.ram), chunk, ops[..i]) && i <= FirstError(ops)
    {
      var phys := PhysAddress(memory, phdrs[i]);
      var flags := PRESENT + ACCESS_ALL;
      if And(phdrs[i].flags, PF_W) != 0 {
        flags := flags + WRITABLE;
      }
      NextOp(old(k.ram), chunk, ops, i);
      res := PagingMapTo(
        k, chunk, PageDown(phdrs[i].vaddr), PageDown(phys), PageUp((phys + phdrs[i].memsz) % WORD_LIMIT), flags);
      if res < 0 {
        return;
      }
    }
  }

  lemma NextOp(ram: Ram, chunk: nat, ops: seq<PagingOp>, i: nat)
    requires chunk < FRAMES && i < |ops|
    ensures Status(ops[i]) == 0 ==>
      RunOps(ram, chunk, ops[..i + 1]) == Apply(RunOps(ram, chunk, ops[..i]), chunk, ops[i])
    ensures Status(ops[i]) < 0 ==>
      RunOps(ram, chunk, ops[..i]) == Apply(RunOps(ram, chunk, ops[..i]), chunk, ops[i])
  {
    RunOneMore(ram, chunk, ops[..i], ops[i]);
    assert ops[..i] + [ops[i]] == ops[..i + 1];
  }

  /** The operations process_map_memory performs, up to an ELF header that cannot be mapped. */
  function MemoryOps(image: Image, stack: Word): seq<PagingOp> {
    if Rejected(image) then ImageOps(image)[..FirstError(ImageOps(image))]
    else ImageOps(image) + [StackOp(stack)]
  }

  predicate Rejected(image: Image) {
    image.Elf? && FirstError(ImageOps(image)) < |ImageOps(image)|
  }

  /** process_map_memory: the status of the binary and stack mappings is not looked at. */
  method MapMemory(k: Kernel, chunk: nat, image: Image, stack: Word) returns (res: int)
    requires Formed(k.ram, chunk)
    modifies k`ram
    ensures Formed(k.ram, chunk)
    ensures k.ram == RunOps(old(k.ram), chunk, MemoryOps(image, stack))
    ensures res == if Rejected(image) then -EINVARG else 0
  {
    hide RunOps, FlatOps, Apply, ApplyFlat, Flat, Frames, NoRepeats, PhdrOps;
    res := 0;
    match image {
      case Elf(memory, phdrs) =>
        res := MapElf(k, chunk, memory, phdrs);
      case Binary(ptr, size) =>
        assert RunOps(k.ram, chunk, ImageOps(image)) == Apply(k.ram, chunk, BinaryOp(ptr, size)) by {
          RunOneMore(k.ram, chunk, [], BinaryOp(ptr, size));
          assert ImageOps(image) == [] + [BinaryOp(ptr, size)];
        }
        var _ := PagingMapTo(k, chunk, PROGRAM_ADDRESS, ptr, PageUp((ptr + size) % WORD_LIMIT), READ_WRITE);
    }
    if res < 0 {
      return;
    }
    RunOneMore(old(k.ram), chunk, ImageOps(image), StackOp(stack));
    assert image.Elf? ==> ImageOps(image)[..|ImageOps(image)|] == ImageOps(image);
    var _ := PagingMapTo(k, chunk, STACK_END, stack, PageUp((stack + STACK_SIZE) % WORD_LIMIT), READ_WRITE);
  }

  // ---------------------------------------------------------------------
  // The resulting page map
  // ---------------------------------------------------------------------

  predicate Covers(op: PagingOp, page: nat)
    requires page < PAGES
  {
    Status(op) == 0 && (page - op.virt / PAGE_SIZE) % PAGES < Extent(op).1
  }

  function EntryFrom(op: PagingOp, page: nat): Word
    requires page < PAGES
  {
    RangeEntry(Extent(op).0, (page - op.virt / PAGE_SIZE) % PAGES, Extent(op).2)
  }

  /** The last operation that covers a page, or -1. */
  function LastCover(ops: seq<PagingOp>, page: nat): (r: int)
    requires page < PAGES
    ensures -1 <= r < |ops|
    ensures r >= 0 ==> Covers(ops[r], page)
    ensures forall i :: 0 <= i < |ops| && r < i ==> !Covers(ops[i], page)
  {
    if ops == [] then -1
    else if Covers(ops[|ops| - 1], page) then |ops| - 1
    else LastCover(ops[..|ops| - 1], page)
  }

  /** After any run of mapping operations a page has the entry its last covering operation gave it. */
  lemma {:induction false} LastCoverWins(m: PageMap, ops: seq<PagingOp>, page: nat)
    requires page < PAGES
    ensures var last := LastCover(ops, page);
      FlatOps(m, ops)[page] == if last < 0 then m[page] else EntryFrom(ops[last], page)
  {
    hide ApplyFlat, Covers, EntryFrom;
    if ops != [] {
      LastCoverWins(m, ops[..|ops| - 1], page);
      OneCover(FlatOps(m, ops[..|ops| - 1]), ops[|ops| - 1], page);
    }
  }

  lemma OneCover(m: PageMap, op: PagingOp, page: nat)
    requires page < PAGES
    ensures ApplyFlat(m, op)[page] == if Covers(op, page) then EntryFrom(op, page) else m[page]
  {
    hide RangeEntry;
  }

  predicate StackPage(page: nat) {
    STACK_END / PAGE_SIZE <= page < (STACK_END + STACK_SIZE) / PAGE_SIZE
  }

  /** A page-aligned stack block whose end is an address. */
  predicate GoodStack(stack: Word) {
    stack % PAGE_SIZE == 0 && stack + STACK_SIZE < WORD_LIMIT
  }

  lemma PageUpIs(a: Word)
    requires a <= WORD_LIMIT - PAGE_SIZE
    ensures PageUp(a) == (a + PAGE_SIZE - 1) / PAGE_SIZE * PAGE_SIZE
  {
    var q, r := a / PAGE_SIZE, a % PAGE_SIZE;
    assert a == q * PAGE_SIZE + r;
    if r == 0 {
      assert (a + PAGE_SIZE - 1) / PAGE_SIZE == q;
    } else {
      assert (a + PAGE_SIZE - 1) / PAGE_SIZE == q + 1;
      assert a + PAGE_SIZE - r == (q + 1) * PAGE_SIZE;
    }
  }

  lemma StackExtent(stack: Word)
    requires GoodStack(stack)
    ensures Status(StackOp(stack)) == 0 && Extent(StackOp(stack)) == (stack, 4, READ_WRITE)
  {
    hide PageUp;
    PageUpIs(stack + STACK_SIZE);
  }

  /** The stack mapping covers exactly the four pages below the stack's top address. */
  lemma StackCovers(stack: Word, page: nat)
    requires GoodStack(stack) && page < PAGES
    ensures Covers(StackOp(stack), page) <==> StackPage(page)
    ensures StackPage(page) ==>
      EntryFrom(StackOp(stack), page)
        == Or(stack + (page - STACK_END / PAGE_SIZE) * PAGE_SIZE, READ_WRITE)
  {
    hide Or, Status, Extent;
    StackExtent(stack);
  }

  /** An entry is its page-aligned address plus its flags. */
  lemma EntrySum(phys: Word, i: nat, flags: Byte)
    requires phys % PAGE_SIZE == 0
    ensures RangeEntry(phys, i, flags) == Advance(phys, i) + flags
    ensures phys + i * PAGE_SIZE < WORD_LIMIT ==> RangeEntry(phys, i, flags) == phys + i * PAGE_SIZE + flags
  {
    hide Or;
    AdvanceOne(phys, i);
    FlagsOr(Advance(phys, i) / PAGE_SIZE, 0, flags);
    ZeroOr(flags);
  }

  /** Flag bits in an entry built from a page-aligned address. */
  lemma EntryWritable(phys: Word, i: nat, flags: Byte)
    requires phys % PAGE_SIZE == 0 && flags in {READ_ONLY, READ_WRITE}
    ensures Writable(RangeEntry(phys, i, flags)) <==> flags == READ_WRITE
    ensures And(RangeEntry(phys, i, flags), 0xffff_f000) == Advance(phys, i)
  {
    hide And, RangeEntry, Advance;
    EntrySum(phys, i, flags);
    AdvanceOne(phys, i);
    PageMask(Advance(phys, i) + flags);
    AndTwo(Advance(phys, i) + flags);
  }

  /** The page map of a loaded program. */
  function Loaded(image: Image, stack: Word): PageMap {
    FlatOps(IdentityMap(READ_ONLY), MemoryOps(image, stack))
  }

  /**
   The complete page map after a successful load: the four stack pages go to the
   stack block, program pages follow the last program header (or the binary
   image) that covers them, and all other pages map to themselves read-only.
   */
  lemma CompletePageMap(image: Image, stack: Word, page: nat)
    requires GoodStack(stack) && !Rejected(image) && page < PAGES
    ensures var last := LastCover(ImageOps(image), page);
      Loaded(image, stack)[page] ==
        if StackPage(page) then Or(stack + (page - STACK_END / PAGE_SIZE) * PAGE_SIZE, READ_WRITE)
        else if last >= 0 then EntryFrom(ImageOps(image)[last], page)
        else Or(page * PAGE_SIZE, READ_ONLY)
  {
    hide Covers, EntryFrom, Or, ImageOps, StackOp, FlatOps;
    var ops := ImageOps(image);
    var all := ops + [StackOp(stack)];
    LastCoverWins(IdentityMap(READ_ONLY), all, page);
    StackCovers(stack, page);
    assert all[..|all| - 1] == ops;
  }

  predicate MayWrite(image: Image, last: int)
    requires last < |ImageOps(image)|
  {
    last >= 0 && (image.Binary? || And(image.phdrs[last].flags, PF_W) != 0)
  }

  /** Exactly the stack, the binary image and the pages whose last header has PF_W are writable. */
  lemma WritablePages(image: Image, stack: Word, page: nat)
    requires GoodStack(stack) && !Rejected(image) && page < PAGES
    ensures Writable(Loaded(image, stack)[page]) <==>
      StackPage(page) || MayWrite(image, LastCover(ImageOps(image), page))
  {
    hide Writable, Or, And, Loaded, LastCover, RangeEntry, Covers, EntryFrom, Rejected, ImageOps;
    var last := LastCover(ImageOps(image), page);
    CompletePageMap(image, stack, page);
    if StackPage(page) {
      EntryIsRange(stack + (page - STACK_END / PAGE_SIZE) * PAGE_SIZE, READ_WRITE);
      EntryWritable(stack + (page - STACK_END / PAGE_SIZE) * PAGE_SIZE, 0, READ_WRITE);
    } else if last >= 0 {
      var op := ImageOps(image)[last];
      ImageOpFlags(image, last, page);
      EntryWritable(op.phys, (page - op.virt / PAGE_SIZE) % PAGES, op.flags);
    } else {
      EntryIsRange(page * PAGE_SIZE, READ_ONLY);
      EntryWritable(page * PAGE_SIZE, 0, READ_ONLY);
    }
  }

  lemma ImageOpFlags(image: Image, i: nat, page: nat)
    requires page < PAGES && i < |ImageOps(image)| && Covers(ImageOps(image)[i], page)
    ensures var op := ImageOps(image)[i];
      && op.MapTo? && op.phys % PAGE_SIZE == 0 && op.flags in {READ_ONLY, READ_WRITE}
      && EntryFrom(op, page) == RangeEntry(op.phys, (page - op.virt / PAGE_SIZE) % PAGES, op.flags)
      && (op.flags == READ_WRITE <==> MayWrite(image, i))
  {
    hide RangeEntry, And, PageUp;
  }

  lemma EntryIsRange(phys: Word, flags: Byte)
    ensures Or(phys, flags) == RangeEntry(phys, 0, flags)
  {
    hide Or;
    assert Advance(phys, 0) == phys;
  }

  // ---------------------------------------------------------------------
  // Segments, byte by byte
  // ---------------------------------------------------------------------

  /** The page that holds byte k of a segment, counted from the segment's first page. */
  lemma SegmentPage(virt: Word, k: nat)
    requires k <= WORD_LIMIT - PAGE_SIZE
    ensures var a := (virt + k) % WORD_LIMIT;
      && (a / PAGE_SIZE - virt / PAGE_SIZE) % PAGES == (virt % PAGE_SIZE + k) / PAGE_SIZE
      && a % PAGE_SIZE == (virt % PAGE_SIZE + k) % PAGE_SIZE
  {
    var i := (virt % PAGE_SIZE + k) / PAGE_SIZE;
    var q := virt / PAGE_SIZE + i;
    assert virt + k == q * PAGE_SIZE + (virt % PAGE_SIZE + k) % PAGE_SIZE;
    assert (virt + k) % WORD_LIMIT / PAGE_SIZE == q % PAGES;
    RangeIndex(virt / PAGE_SIZE, i, q % PAGES);
  }

  lemma SegmentExtent(virt: Word, phys: Word, size: Word, flags: Byte)
    requires phys + size <= WORD_LIMIT - PAGE_SIZE
    ensures var op := SegmentOp(virt, phys, size, flags);
      Status(op) == 0 && Extent(op) == (PageDown(phys), (phys % PAGE_SIZE + size + PAGE_SIZE - 1) / PAGE_SIZE, flags)
  {
    hide PageUp;
    PageUpIs(phys + size);
    var p, r := phys / PAGE_SIZE, phys % PAGE_SIZE;
    assert (phys + size + PAGE_SIZE - 1) / PAGE_SIZE == p + (r + size + PAGE_SIZE - 1) / PAGE_SIZE;
  }

  lemma AdvanceSmall(a: Word, i: nat)
    requires a + i * PAGE_SIZE < WORD_LIMIT
    ensures Advance(a, i) == a + i * PAGE_SIZE
  {
  }

  /** Byte k of a congruent segment is covered and translates to byte k of its memory. */
  lemma SegmentByte(virt: Word, phys: Word, size: Word, flags: Byte, k: nat)
    requires k < size && phys + size <= WORD_LIMIT - PAGE_SIZE && flags in {READ_ONLY, READ_WRITE}
    requires k == 0 || virt % PAGE_SIZE == phys % PAGE_SIZE
    ensures var op, a := SegmentOp(virt, phys, size, flags), (virt + k) % WORD_LIMIT;
      && Covers(op, a / PAGE_SIZE)
      && And(EntryFrom(op, a / PAGE_SIZE), 0xffff_f000) + a % PAGE_SIZE
        == phys + k - phys % PAGE_SIZE + virt % PAGE_SIZE
  {
    hide And, RangeEntry, Status, Extent, PageUp, Advance;
    SegmentPage(virt, k);
    SegmentExtent(virt, phys, size, flags);
    var i := (virt % PAGE_SIZE + k) / PAGE_SIZE;
    assert i < (phys % PAGE_SIZE + size + PAGE_SIZE - 1) / PAGE_SIZE;
    EntryWritable(PageDown(phys), i, flags);
    AdvanceSmall(PageDown(phys), i);
  }

  /** Byte k of the segment at `virt` is byte k of the memory at `phys`. */
  predicate ByteMapped(m: PageMap, virt: Word, phys: Word, k: nat) {
    Translate(m, (virt + k) % WORD_LIMIT) == phys + k
  }

  /** No stack page and no page of a later header lies on header j's pages. */
  ghost predicate LastOnItsPages(ops: seq<PagingOp>, j: nat)
    requires j < |ops|
  {
    forall page: nat :: page < PAGES && Covers(ops[j], page) ==>
      !StackPage(page) && forall i :: j < i < |ops| ==> !Covers(ops[i], page)
  }

  /** The page a header covers last is translated by that header. */
  lemma TranslateByLast(image: Image, stack: Word, j: nat, a: Word)
    requires GoodStack(stack) && !Rejected(image) && j < |ImageOps(image)|
    requires LastOnItsPages(ImageOps(image), j) && Covers(ImageOps(image)[j], a / PAGE_SIZE)
    ensures Translate(Loaded(image, stack), a)
      == And(EntryFrom(ImageOps(image)[j], a / PAGE_SIZE), 0xffff_f000) + a % PAGE_SIZE
  {
    hide And, EntryFrom, Covers, Loaded, ImageOps, Or;
    CompletePageMap(image, stack, a / PAGE_SIZE);
    assert LastCover(ImageOps(image), a / PAGE_SIZE) == j;
  }

  /**
   ELF mapping, byte by byte: a non-empty segment whose pages no later header or
   the stack takes over translates to its bytes of the loaded file if and only if
   its address and its file offset agree modulo the page size.
   */
  lemma ElfBytes(memory: Word, phdrs: seq<Phdr>, stack: Word, j: nat)
    requires GoodStack(stack) && !Rejected(Elf(memory, phdrs)) && j < |phdrs|
    requires memory % PAGE_SIZE == 0 && phdrs[j].memsz >= 1
    requires PhysAddress(memory, phdrs[j]) + phdrs[j].memsz <= WORD_LIMIT - PAGE_SIZE
    requires LastOnItsPages(PhdrOps(memory, phdrs), j)
    ensures var ph, m := phdrs[j], Loaded(Elf(memory, phdrs), stack);
      (forall k: nat :: k < ph.memsz ==> ByteMapped(m, ph.vaddr, PhysAddress(memory, ph), k))
      <==> (ph.vaddr - ph.offset) % PAGE_SIZE == 0
  {
    hide ByteMapped, Loaded, Rejected, LastOnItsPages, PhysAddress, PhdrOps, GoodStack;
    var ph, image := phdrs[j], Elf(memory, phdrs);
    OffsetInPage(memory, ph);
    HeaderByteMapped(memory, phdrs, stack, j, 0);
    if ph.vaddr % PAGE_SIZE == PhysAddress(memory, ph) % PAGE_SIZE {
      forall k: nat | k < ph.memsz ensures ByteMapped(Loaded(image, stack), ph.vaddr, PhysAddress(memory, ph), k) {
        HeaderByteMapped(memory, phdrs, stack, j, k);
      }
    }
  }

  lemma HeaderByteMapped(memory: Word, phdrs: seq<Phdr>, stack: Word, j: nat, k: nat)
    requires GoodStack(stack) && !Rejected(Elf(memory, phdrs)) && j < |phdrs| && k < phdrs[j].memsz
    requires PhysAddress(memory, phdrs[j]) + phdrs[j].memsz <= WORD_LIMIT - PAGE_SIZE
    requires LastOnItsPages(PhdrOps(memory, phdrs), j)
    requires k == 0 || phdrs[j].vaddr % PAGE_SIZE == PhysAddress(memory, phdrs[j]) % PAGE_SIZE
    ensures var ph, phys := phdrs[j], PhysAddress(memory, phdrs[j]);
      ByteMapped(Loaded(Elf(memory, phdrs), stack), ph.vaddr, phys, k) <==> ph.vaddr % PAGE_SIZE == phys % PAGE_SIZE
  {
    hide Translate, Loaded, Rejected, LastOnItsPages, PhysAddress, PhdrOps, GoodStack;
    HeaderByte(memory, phdrs, stack, j, k);
  }

  lemma OffsetInPage(memory: Word, ph: Phdr)
    requires memory % PAGE_SIZE == 0
    ensures PhysAddress(memory, ph) % PAGE_SIZE == ph.offset % PAGE_SIZE
    ensures (ph.vaddr - ph.offset) % PAGE_SIZE == 0 <==> ph.vaddr % PAGE_SIZE == PhysAddress(memory, ph) % PAGE_SIZE
  {
    var x := memory + ph.offset;
    assert x == x / WORD_LIMIT * WORD_LIMIT + x % WORD_LIMIT;
  }

  lemma HeaderByte(memory: Word, phdrs: seq<Phdr>, stack: Word, j: nat, k: nat)
    requires GoodStack(stack) && !Rejected(Elf(memory, phdrs)) && j < |phdrs| && k < phdrs[j].memsz
    requires PhysAddress(memory, phdrs[j]) + phdrs[j].memsz <= WORD_LIMIT - PAGE_SIZE
    requires LastOnItsPages(PhdrOps(memory, phdrs), j)
    requires k == 0 || phdrs[j].vaddr % PAGE_SIZE == PhysAddress(memory, phdrs[j]) % PAGE_SIZE
    ensures var ph, phys := phdrs[j], PhysAddress(memory, phdrs[j]);
      Translate(Loaded(Elf(memory, phdrs), stack), (ph.vaddr + k) % WORD_LIMIT)
        == phys + k - phys % PAGE_SIZE + ph.vaddr % PAGE_SIZE
  {
    hide And, EntryFrom, Covers, Loaded, LastOnItsPages, Rejected, Translate, PhysAddress;
    var ph := phdrs[j];
    SegmentByte(ph.vaddr, PhysAddress(memory, ph), ph.memsz, PhdrFlags(ph), k);
    TranslateByLast(Elf(memory, phdrs), stack, j, (ph.vaddr + k) % WORD_LIMIT);
  }

  /** A one-byte segment at 0x400100 whose byte is at offset 0x1000: address 0x400100 reads another byte. */
  lemma UnalignedSegment()
    ensures var memory, stack: Word, ph := 0x200_0000, 0x300_0000, Phdr(0x1000, 0x40_0100, 1, 0);
      && GoodStack(stack) && !Rejected(Elf(memory, [ph])) && LastOnItsPages(PhdrOps(memory, [ph]), 0)
      && !ByteMapped(Loaded(Elf(memory, [ph]), stack), ph.vaddr, PhysAddress(memory, ph), 0)
  {
    hide Loaded, ByteMapped, PageUp;
    var memory, stack: Word, ph := 0x200_0000, 0x300_0000, Phdr(0x1000, 0x40_0100, 1, 0);
    var ops := PhdrOps(memory, [ph]);
    SegmentExtent(ph.vaddr, PhysAddress(memory, ph), 1, PhdrFlags(ph));
    assert Status(ops[0]) == 0 && FirstError(ops) == 1 + FirstError(ops[1..]);
    forall page: nat | page < PAGES && Covers(ops[0], page) ensures !StackPage(page) {
      assert (page - 0x400) % PAGES < 1;
    }
    HeaderByteMapped(memory, [ph], stack, 0, 0);
  }

  /** Byte k of a flat binary is found at the program address plus k. */
  lemma BinaryBytes(ptr: Word, size: Word, stack: Word, k: nat)
    requires GoodStack(stack) && k < size
    requires ptr % PAGE_SIZE == 0 && ptr + size <= WORD_LIMIT - PAGE_SIZE && PROGRAM_ADDRESS + size <= WORD_LIMIT
    ensures Translate(Loaded(Binary(ptr, size), stack), PROGRAM_ADDRESS + k) == ptr + k
  {
    hide And, EntryFrom, Loaded, Translate, Status, Extent, PageUp, Covers, LastOnItsPages;
    var image, op := Binary(ptr, size), BinaryOp(ptr, size);
    assert op == SegmentOp(PROGRAM_ADDRESS, ptr, size, READ_WRITE);
    SegmentByte(PROGRAM_ADDRESS, ptr, size, READ_WRITE, k);
    assert LastOnItsPages(ImageOps(image), 0) by { BinaryOffStack(ptr, size); }
    TranslateByLast(image, stack, 0, PROGRAM_ADDRESS + k);
  }

  lemma BinaryOffStack(ptr: Word, size: Word)
    requires 1 <= size && ptr % PAGE_SIZE == 0
    requires ptr + size <= WORD_LIMIT - PAGE_SIZE && PROGRAM_ADDRESS + size <= WORD_LIMIT
    ensures LastOnItsPages([BinaryOp(ptr, size)], 0)
  {
    hide Status, Extent, PageUp;
    assert BinaryOp(ptr, size) == SegmentOp(PROGRAM_ADDRESS, ptr, size, READ_WRITE);
    SegmentExtent(PROGRAM_ADDRESS, ptr, size, READ_WRITE);
  }
}
