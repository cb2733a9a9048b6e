/**
 paging.c over kernel memory. Pointers to page-aligned structures are given as
 frame numbers.
 */
module Paging {
  import opened StatusCodes
  import opened Bits
  import opened Memory
  import opened Kheap
  import opened PageBlocks
  import opened PageTables
  import opened PagingRuns

  // ---------------------------------------------------------------------
  // Reading and writing entries
  // ---------------------------------------------------------------------

  /** paging_get_indexes: the outputs keep their zero when the address is not aligned. */
  method GetIndexes(virt: Word) returns (res: int, directoryIndex: nat, tableIndex: nat)
    ensures directoryIndex < PAGE_WORDS && tableIndex < PAGE_WORDS
    ensures IsAligned(virt) ==>
      res == 0 && directoryIndex * PAGE_WORDS + tableIndex == virt / PAGE_SIZE
    ensures !IsAligned(virt) ==> res == -EINVARG && directoryIndex == 0 && tableIndex == 0
  {
    if !IsAligned(virt) {
      return -EINVARG, 0, 0;
    }
    directoryIndex := virt / (PAGE_WORDS * PAGE_SIZE);
    tableIndex := virt % (PAGE_WORDS * PAGE_SIZE) / PAGE_SIZE;
    res := 0;
  }

  lemma SetIsRangeOfOne(ram: Ram, chunk: nat, virt: Word, val: Word)
    requires chunk < FRAMES && IsAligned(virt)
    ensures Apply(ram, chunk, Set(virt, val)) == SetEntry(ram, chunk, virt / PAGE_SIZE, val)
  {
    hide Or, SetEntry;
    OrZero(val);
    AdvanceNone(val);
    assert RangeRam(ram, chunk, virt, val, 0, 0) == ram;
  }

  /** The entry of a page, reached as the code reaches it. */
  lemma EntryPlace(ram: Ram, chunk: nat, page: nat, i: nat, j: nat)
    requires Formed(ram, chunk) && page < PAGES && i < PAGE_WORDS && j < PAGE_WORDS && i * PAGE_WORDS + j == page
    ensures var table := TableOf(ram[ram[chunk][0] / PAGE_SIZE][i]);
      && table < FRAMES && Flat(ram, chunk)[page] == ram[table][j]
      && forall val: Word :: SetEntry(ram, chunk, page, val) == WithWord(ram, table, j, val)
  {
    hide And, NoRepeats;
    assert page / PAGE_WORDS == i && page % PAGE_WORDS == j;
  }

  /** paging_set, given the directory the chunk points at. */
  method PagingSet(k: Kernel, ghost chunk: nat, directory: Word, virt: Word, val: Word) returns (res: int)
    requires Formed(k.ram, chunk) && directory == k.ram[chunk][0]
    modifies k`ram
    ensures k.ram == Apply(old(k.ram), chunk, Set(virt, val)) && Formed(k.ram, chunk)
    ensures res == Status(Set(virt, val))
  {
    hide Flat, Frames, NoRepeats, SetEntry, TableOf, Apply, ApplyFlat;
    ApplyRefines(k.ram, chunk, Set(virt, val));
    if !IsAligned(virt) {
      Refused(k.ram, chunk, Set(virt, val));
      return -EINVARG;
    }
    SetIsRangeOfOne(k.ram, chunk, virt, val);
    var r, i, j := GetIndexes(virt);
    if r < 0 {
      return r;
    }
    EntryPlace(k.ram, chunk, virt / PAGE_SIZE, i, j);
    var entry := k.ram[directory / PAGE_SIZE][i];
    k.ram := WithWord(k.ram, TableOf(entry), j, val);
    res := 0;
  }

  /** paging_get: the flat map at the address's page; page 0 for an unaligned address. */
  method PagingGet(k: Kernel, ghost chunk: nat, directory: Word, virt: Word) returns (val: Word)
    requires Formed(k.ram, chunk) && directory == k.ram[chunk][0]
    ensures val == Flat(k.ram, chunk)[if IsAligned(virt) then virt / PAGE_SIZE else 0]
  {
    hide Flat, Frames, NoRepeats, TableOf;
    var r, i, j := GetIndexes(virt);
    EntryPlace(k.ram, chunk, if IsAligned(virt) then virt / PAGE_SIZE else 0, i, j);
    var entry := k.ram[directory / PAGE_SIZE][i];
    val := k.ram[TableOf(entry)][j];
  }

  lemma AdvanceNone(a: Word)
    ensures Advance(a, 0) == a
  {
  }

  lemma MapIsSet(ram: Ram, chunk: nat, virt: Word, phys: Word, flags: Word)
    requires chunk < FRAMES && IsAligned(virt) && IsAligned(phys)
    ensures RangeEntry(phys, 0, flags) == Or(phys, flags)
    ensures Apply(ram, chunk, Map(virt, phys, flags))
      == SetEntry(ram, chunk, virt / PAGE_SIZE, RangeEntry(phys, 0, flags))
  {
    hide Or;
    AdvanceNone(phys);
    assert RangeRam(ram, chunk, virt, phys, 0, flags) == ram;
  }

  /** paging_map. */
  method PagingMap(k: Kernel, chunk: nat, virt: Word, phys: Word, flags: Word) returns (res: int)
    requires Formed(k.ram, chunk)
    modifies k`ram
    ensures k.ram == Apply(old(k.ram), chunk, Map(virt, phys, flags)) && Formed(k.ram, chunk)
    ensures res == Status(Map(virt, phys, flags))
  {
    hide Apply, SetEntry, RangeEntry, Or, Flat, Frames, NoRepeats;
    ApplyRefines(k.ram, chunk, Map(virt, phys, flags));
    Refused(k.ram, chunk, Map(virt, phys, flags));
    if !IsAligned(virt) || !IsAligned(phys) {
      return -EINVARG;
    }
    MapIsSet(k.ram, chunk, virt, phys, flags);
    OrIsWord(phys, flags);
    SetIsRangeOfOne(k.ram, chunk, virt, Or(phys, flags));
    res := PagingSet(k, chunk, k.ram[chunk][0], virt, Or(phys, flags));
  }

  lemma AdvanceOne(a: Word, i: nat)
    ensures (Advance(a, i) + PAGE_SIZE) % WORD_LIMIT == Advance(a, i + 1)
    ensures Advance(a, i) / PAGE_SIZE == (a / PAGE_SIZE + i) % PAGES
    ensures IsAligned(Advance(a, i)) <==> IsAligned(a)
  {
    WrapPage(a + i * PAGE_SIZE);
    WrapAdd(a + i * PAGE_SIZE, PAGE_SIZE);
    assert (a + i * PAGE_SIZE) / PAGE_SIZE == a / PAGE_SIZE + i;
  }

  /** One round of the loop of paging_map_range. */
  lemma NextOfRange(ram: Ram, chunk: nat, virt: Word, phys: Word, i: nat, flags: Word)
    requires chunk < FRAMES && IsAligned(virt) && IsAligned(phys)
    ensures Apply(RangeRam(ram, chunk, virt, phys, i, flags), chunk, Map(Advance(virt, i), Advance(phys, i), flags))
      == RangeRam(ram, chunk, virt, phys, i + 1, flags)
  {
    hide Advance, Apply, SetEntry;
    AdvanceOne(virt, i);
    AdvanceOne(phys, i);
    MapIsSet(RangeRam(ram, chunk, virt, phys, i, flags), chunk, Advance(virt, i), Advance(phys, i), flags);
    AdvanceNone(Advance(phys, i));
  }

  /** paging_map_range: all pages or, on an error, none. */
  method PagingMapRange(k: Kernel, chunk: nat, virt: Word, phys: Word, count: int, flags: Word) returns (res: int)
    requires Formed(k.ram, chunk)
    modifies k`ram
    ensures k.ram == Apply(old(k.ram), chunk, MapRange(virt, phys, count, flags)) && Formed(k.ram, chunk)
    ensures res == Status(MapRange(virt, phys, count, flags))
  {
    res := 0;
    var i, v, p := 0, virt, phys;
    while i < count
      invariant 0 <= i && (i <= count || i == 0) && res == 0
      invariant i > 0 ==> IsAligned(virt) && IsAligned(phys)
      invariant v == Advance(virt, i) && p == Advance(phys, i)
      invariant k.ram == RangeRam(old(k.ram), chunk, virt, phys, i, flags) && Formed(k.ram, chunk)
    {
      AdvanceOne(virt, i);
      AdvanceOne(phys, i);
      if IsAligned(virt) && IsAligned(phys) {
        NextOfRange(old(k.ram), chunk, virt, phys, i, flags);
      }
      res := PagingMap(k, chunk, v, p, flags);
      if res < 0 {
        break;
      }
      i, v, p := i + 1, (v + PAGE_SIZE) % WORD_LIMIT, (p + PAGE_SIZE) % WORD_LIMIT;
    }
  }

  /** paging_map_to: the pages of [phys, physEnd). */
  method PagingMapTo(k: Kernel, chunk: nat, virt: Word, phys: Word, physEnd: Word, flags: Word) returns (res: int)
    requires Formed(k.ram, chunk)
    modifies k`ram
    ensures k.ram == Apply(old(k.ram), chunk, MapTo(virt, phys, physEnd, flags)) && Formed(k.ram, chunk)
    ensures res == Status(MapTo(virt, phys, physEnd, flags))
  {
    if !IsAligned(virt) || !IsAligned(phys) || physEnd < phys || !IsAligned(physEnd) {
      return -EINVARG;
    }
    var totalPages := (physEnd - phys) / PAGE_SIZE;
    res := PagingMapRange(k, chunk, virt, phys, totalPages, flags);
  }
}
