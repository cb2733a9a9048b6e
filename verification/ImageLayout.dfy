/**
 The page map of a loaded program read off the fields of its headers: which pages a
 segment takes, which headers are refused, and the entry of every page.
 */
module ImageLayout {
  import opened Bits
  import opened Memory
  import opened PageTables
  import opened PagingRuns
  import opened AddressSpace
  import opened ProcessImage

  // ---------------------------------------------------------------------
  // Which pages a header or a binary takes
  // ---------------------------------------------------------------------

  /** The first address of the first page, and the address behind the last page, of `size` bytes at `phys`. */
  function From(phys: Word): Word {
    phys - phys % 4096
  }

  function To(phys: Word, size: Word): Word {
    ((phys + size) % 0x1_0000_0000 + 4095) / 4096 * 4096 % 0x1_0000_0000
  }

  function Phys(memory: Word, ph: Phdr): Word {
    (memory + ph.offset) % 0x1_0000_0000
  }

  /** The end of the segment's pages, wrapped at 2^32, is not below their beginning. */
  predicate Fits(memory: Word, ph: Phdr) {
    From(Phys(memory, ph)) <= To(Phys(memory, ph), ph.memsz)
  }

  /** The page is one of the segment's, counted from the page of vaddr. */
  predicate InSegment(memory: Word, ph: Phdr, page: nat)
    requires page < PAGES
  {
    var phys := Phys(memory, ph);
    Fits(memory, ph) && (page - ph.vaddr / 4096) % 0x10_0000 < (To(phys, ph.memsz) - From(phys)) / 4096
  }

  /** The page is one of the binary's, counted from page 0x400; none if its block is not page-aligned. */
  predicate InBinary(ptr: Word, size: Word, page: nat)
    requires page < PAGES
  {
    ptr % 4096 == 0 && ptr <= To(ptr, size) && (page - 0x400) % 0x10_0000 < (To(ptr, size) - ptr) / 4096
  }

  lemma PageUpIsTo(phys: Word, size: Word)
    ensures PageUp((phys + size) % WORD_LIMIT) == To(phys, size)
  {
    var a := (phys + size) % WORD_LIMIT;
    if a <= WORD_LIMIT - PAGE_SIZE {
      PageUpIs(a);
    } else {
      assert a / PAGE_SIZE == 0xf_ffff && (a + 4095) / 4096 == 0x10_0000;
    }
  }

  /** A header is accepted if and only if it fits, and covers the pages of its segment and no other. */
  lemma HeaderCovers(memory: Word, phdrs: seq<Phdr>, j: nat, page: nat)
    requires j < |phdrs| && page < PAGES
    ensures Status(PhdrOps(memory, phdrs)[j]) == 0 <==> Fits(memory, phdrs[j])
    ensures Covers(PhdrOps(memory, phdrs)[j], page) <==> InSegment(memory, phdrs[j], page)
  {
    hide PageUp, And, To;
    var ph, phys := phdrs[j], Phys(memory, phdrs[j]);
    PageUpIsTo(phys, ph.memsz);
    ToIsAligned(phys, ph.memsz);
    PageOfPageDown(ph.vaddr);
  }

  lemma ToIsAligned(phys: Word, size: Word)
    ensures To(phys, size) % 4096 == 0
  {
    var n := ((phys + size) % 0x1_0000_0000 + 4095) / 4096;
    assert n <= 0x10_0000;
  }

  lemma PageOfPageDown(a: Word)
    ensures PageDown(a) / PAGE_SIZE == a / PAGE_SIZE && PageDown(a) % PAGE_SIZE == 0
  {
  }

  /** A segment that ends a page or more below 2^32 fits, and takes the pages its bytes fill. */
  lemma SegmentCount(memory: Word, ph: Phdr, page: nat)
    requires page < PAGES && (memory + ph.offset) % WORD_LIMIT + ph.memsz <= WORD_LIMIT - PAGE_SIZE
    ensures Fits(memory, ph)
    ensures InSegment(memory, ph, page) <==>
      (page - ph.vaddr / PAGE_SIZE) % PAGES
        < ((memory + ph.offset) % WORD_LIMIT % PAGE_SIZE + ph.memsz + PAGE_SIZE - 1) / PAGE_SIZE
  {
    hide To, From;
    PagesFilled(Phys(memory, ph), ph.memsz);
  }

  lemma PagesFilled(phys: Word, size: Word)
    requires phys + size <= WORD_LIMIT - PAGE_SIZE
    ensures From(phys) <= To(phys, size)
    ensures (To(phys, size) - From(phys)) / 4096 == (phys % PAGE_SIZE + size + PAGE_SIZE - 1) / PAGE_SIZE
  {
    var p, r := phys / 4096, phys % 4096;
    var n := (r + size + 4095) / 4096;
    assert phys + size + 4095 == p * 4096 + (r + size + 4095);
    assert (phys + size + 4095) / 4096 == p + n;
    assert (phys + size) % 0x1_0000_0000 == phys + size;
    assert To(phys, size) == (p + n) * 4096;
  }

  /** A binary covers the pages its bytes fill and no other. */
  lemma BinaryCovers(ptr: Word, size: Word, page: nat)
    requires page < PAGES
    ensures Covers(BinaryOp(ptr, size), page) <==> InBinary(ptr, size, page)
  {
    hide PageUp, To;
    PageUpIsTo(ptr, size);
    ToIsAligned(ptr, size);
  }

  // ---------------------------------------------------------------------
  // The entry of every page
  // ---------------------------------------------------------------------

  /** Of the headers whose segments take the page, the j-th is the last. */
  ghost predicate LastSegment(memory: Word, phdrs: seq<Phdr>, j: nat, page: nat)
    requires j < |phdrs| && page < PAGES
  {
    InSegment(memory, phdrs[j], page) && forall i :: j < i < |phdrs| ==> !InSegment(memory, phdrs[i], page)
  }

  lemma LastIs(memory: Word, phdrs: seq<Phdr>, page: nat)
    requires page < PAGES
    ensures var last := LastCover(PhdrOps(memory, phdrs), page);
      if last < 0 then forall j :: 0 <= j < |phdrs| ==> !InSegment(memory, phdrs[j], page)
      else LastSegment(memory, phdrs, last, page)
  {
    hide Covers, LastCover, InSegment;
    forall j | 0 <= j < |phdrs|
      ensures Covers(PhdrOps(memory, phdrs)[j], page) <==> InSegment(memory, phdrs[j], page)
    {
      HeaderCovers(memory, phdrs, j, page);
    }
  }

  /** The frame of a page of a segment, its flags added. */
  lemma SegmentEntry(memory: Word, phdrs: seq<Phdr>, j: nat, page: nat)
    requires j < |phdrs| && page < PAGES && InSegment(memory, phdrs[j], page)
    ensures EntryFrom(PhdrOps(memory, phdrs)[j], page) == EntryOf(memory, phdrs[j], page)
  {
    hide RangeEntry, PageUp, And, To;
    var ph, phys := phdrs[j], Phys(memory, phdrs[j]);
    var i := (page - ph.vaddr / PAGE_SIZE) % PAGES;
    PageOfPageDown(ph.vaddr);
    AndTwo(ph.flags);
    assert i * PAGE_SIZE < To(phys, ph.memsz) - From(phys);
    EntrySum(PageDown(phys), i, PhdrFlags(ph));
  }

  /** Page i of the segment's memory, present and open to the program, and writable if the header says so. */
  function EntryOf(memory: Word, ph: Phdr, page: nat): nat
    requires page < PAGES
  {
    From(Phys(memory, ph)) + (page - ph.vaddr / 4096) % 0x10_0000 * 4096 + if ph.flags / 2 % 2 == 1 then 7 else 5
  }

  /** The entry is that of the last segment that takes the page, or the read-only identity. */
  ghost predicate FollowsHeaders(memory: Word, phdrs: seq<Phdr>, page: nat, entry: Word)
    requires page < PAGES
  {
    && (forall j :: 0 <= j < |phdrs| && LastSegment(memory, phdrs, j, page) ==>
          entry == EntryOf(memory, phdrs[j], page))
    && ((forall j :: 0 <= j < |phdrs| ==> !InSegment(memory, phdrs[j], page)) ==> entry == page * 4096 + 5)
  }

  lemma OpsFollowHeaders(memory: Word, phdrs: seq<Phdr>, page: nat)
    requires page < PAGES
    ensures FollowsHeaders(memory, phdrs, page, FlatOps(IdentityMap(READ_ONLY), PhdrOps(memory, phdrs))[page])
  {
    hide Covers, EntryFrom, Or, PhdrOps, LastCover, InSegment, FlatOps;
    LastCoverWins(IdentityMap(READ_ONLY), PhdrOps(memory, phdrs), page);
    LastIs(memory, phdrs, page);
    IdentityEntryIs(page);
    forall j | 0 <= j < |phdrs| && LastSegment(memory, phdrs, j, page) {
      SegmentEntry(memory, phdrs, j, page);
    }
  }

  lemma IdentityEntryIs(page: nat)
    requires page < PAGES
    ensures Or(page * PAGE_SIZE, READ_ONLY) == page * 4096 + 5
  {
    hide Or, RangeEntry;
    EntryIsRange(page * PAGE_SIZE, READ_ONLY);
    EntrySum(page * PAGE_SIZE, 0, READ_ONLY);
  }

  lemma StackEntry(stack: Word, page: nat)
    requires GoodStack(stack) && page < PAGES
    ensures StackPage(page) <==> 0x3fb <= page < 0x3ff
    ensures StackPage(page) ==>
      Or(stack + (page - STACK_END / PAGE_SIZE) * PAGE_SIZE, READ_WRITE) == stack + (page - 0x3fb) * 4096 + 7
  {
    hide Or, RangeEntry;
    if StackPage(page) {
      var phys: Word := stack + (page - STACK_END / PAGE_SIZE) * PAGE_SIZE;
      EntryIsRange(phys, READ_WRITE);
      EntrySum(phys, 0, READ_WRITE);
    }
  }

  /**
   The page map of a loaded ELF file, from its headers and nothing else: the stack
   in pages 0x3fb to 0x3fe, the last segment that takes a page, and a read-only
   identity everywhere else. It is loaded if and only if every header fits.
   */
  lemma ElfPageMap(memory: Word, phdrs: seq<Phdr>, stack: Word, page: nat)
    requires stack % 4096 == 0 && stack + 0x4000 < WORD_LIMIT && page < PAGES
    ensures Rejected(Elf(memory, phdrs)) <==> exists j :: 0 <= j < |phdrs| && !Fits(memory, phdrs[j])
    ensures !Rejected(Elf(memory, phdrs)) ==>
      var entry := Loaded(Elf(memory, phdrs), stack)[page];
      if 0x3fb <= page < 0x3ff then entry == stack + (page - 0x3fb) * 4096 + 7
      else FollowsHeaders(memory, phdrs, page, entry)
  {
    hide Covers, EntryFrom, Or, StackOp, LastCover, InSegment, Fits, FollowsHeaders, FlatOps, PhdrOps;
    RejectedIff(memory, phdrs);
    if !Rejected(Elf(memory, phdrs)) {
      CompletePageMap(Elf(memory, phdrs), stack, page);
      LastCoverWins(IdentityMap(READ_ONLY), PhdrOps(memory, phdrs), page);
      OpsFollowHeaders(memory, phdrs, page);
      StackEntry(stack, page);
    }
  }

  lemma RejectedIff(memory: Word, phdrs: seq<Phdr>)
    ensures Rejected(Elf(memory, phdrs)) <==> exists j :: 0 <= j < |phdrs| && !Fits(memory, phdrs[j])
  {
    hide Status, PhdrOps, Fits, Covers, InSegment;
    var ops := PhdrOps(memory, phdrs);
    forall j | 0 <= j < |phdrs| ensures Status(ops[j]) == 0 <==> Fits(memory, phdrs[j]) {
      HeaderCovers(memory, phdrs, j, 0);
    }
  }

  /** A rejected file leaves the headers before the first that does not fit, and no stack. */
  lemma RejectedPageMap(memory: Word, phdrs: seq<Phdr>, stack: Word, j: nat, page: nat)
    requires page < PAGES && j < |phdrs| && !Fits(memory, phdrs[j])
    requires forall i :: 0 <= i < j ==> Fits(memory, phdrs[i])
    ensures FollowsHeaders(memory, phdrs[..j], page, Loaded(Elf(memory, phdrs), stack)[page])
  {
    hide Covers, InSegment, Fits, FollowsHeaders, FlatOps, Status;
    var ops := PhdrOps(memory, phdrs);
    forall i | 0 <= i < |phdrs| ensures Status(ops[i]) == 0 <==> Fits(memory, phdrs[i]) {
      HeaderCovers(memory, phdrs, i, 0);
    }
    assert FirstError(ops) == j;
    assert ops[..j] == PhdrOps(memory, phdrs[..j]);
    OpsFollowHeaders(memory, phdrs[..j], page);
  }

  /** The same for a binary: its pages from 0x400 on go to its memory, writable. */
  lemma BinaryPageMap(ptr: Word, size: Word, stack: Word, page: nat)
    requires stack % 4096 == 0 && stack + 0x4000 < WORD_LIMIT && page < PAGES
    ensures Loaded(Binary(ptr, size), stack)[page]
      == if 0x3fb <= page < 0x3ff then stack + (page - 0x3fb) * 4096 + 7
         else if InBinary(ptr, size, page) then ptr + (page - 0x400) % 0x10_0000 * 4096 + 7
         else page * 4096 + 5
  {
    hide Covers, Or, StackOp, Loaded, RangeEntry, InBinary;
    CompletePageMap(Binary(ptr, size), stack, page);
    StackEntry(stack, page);
    IdentityEntryIs(page);
    BinaryCovers(ptr, size, page);
    if InBinary(ptr, size, page) { BinaryEntry(ptr, size, page); }
  }

  lemma BinaryEntry(ptr: Word, size: Word, page: nat)
    requires page < PAGES && InBinary(ptr, size, page)
    ensures EntryFrom(BinaryOp(ptr, size), page) == ptr + (page - 0x400) % 0x10_0000 * 4096 + 7
  {
    hide RangeEntry, PageUp, To;
    EntrySum(ptr, (page - 0x400) % PAGES, READ_WRITE);
  }
}
