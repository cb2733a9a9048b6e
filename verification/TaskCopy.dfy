/**
 copy_string_from_task: reading a string out of another address space through a
 scratch page that is mapped into it for the time of the copy.
 */
module TaskCopy {
  import opened StatusCodes
  import opened Bits
  import opened BlockTable
  import opened Memory
  import opened Buffers
  import opened Kheap
  import opened PageBlocks
  import opened PageTables
  import opened PagingRuns
  import opened Paging
  import opened ProcessImage
  import opened UserStrings

  /** Mapping the scratch page and putting its old entry back restores memory. */
  lemma RemapUndone(before: Ram, mapped: Ram, used: Ram, chunk: nat, page: nat, entry: Word, frame: nat)
    requires Formed(before, chunk) && page < PAGES && frame < FRAMES && frame !in Frames(before, chunk)
    requires mapped == SetEntry(before, chunk, page, entry)
    requires SameElsewhere(mapped, used, [frame])
    ensures Formed(used, chunk) && used[chunk][0] == before[chunk][0]
    ensures var restored := SetEntry(used, chunk, page, Flat(before, chunk)[page]);
      Formed(restored, chunk) && SameElsewhere(before, restored, [frame]) && restored[frame] == used[frame]
  {
    SetEntryFlat(before, chunk, page, entry);
    SetEntryFrames(before, chunk, page, entry);
    FramesInRange(mapped, chunk);
    OwnFramesOnly(mapped, used, chunk);
    TableInFrames(before, chunk, page / PAGE_WORDS);
    TableInFrames(mapped, chunk, page / PAGE_WORDS);
    TableInFrames(used, chunk, page / PAGE_WORDS);
    var table, i := TableFrame(before, DirectoryOf(before, chunk), page / PAGE_WORDS), page % PAGE_WORDS;
    assert used[table] == before[table][i := entry];
    assert before[table][i := entry][i := before[table][i]] == before[table];
    assert Frames(used, chunk)[1] == Frames(before, chunk)[1];
    SetEntryFlat(used, chunk, page, Flat(before, chunk)[page]);
  }

  /** The bytes of the user string lie off the scratch page and off the entry that maps it. */
  ghost predicate Avoids(ram: Ram, chunk: nat, virt: Word, limit: nat, frame: nat)
    requires chunk < FRAMES
  {
    forall j :: 0 <= j < limit && j <= Length(ram, TaskPage(chunk), virt, limit) ==>
      CharAvoids(ram, chunk, virt, j, frame)
  }

  predicate CharAvoids(ram: Ram, chunk: nat, virt: Word, j: nat, frame: nat)
    requires chunk < FRAMES
  {
    var a := (virt + j) % WORD_LIMIT;
    var source := Translate(Flat(ram, chunk), a);
    && a / PAGE_SIZE != frame && source / PAGE_SIZE != frame
    && (frame < PAGES ==> !InEntry(ram, chunk, frame, source))
  }

  /** The address lies in the table entry of the page. */
  predicate InEntry(ram: Ram, chunk: nat, page: nat, a: Word)
    requires chunk < FRAMES && page < PAGES
  {
    a / PAGE_SIZE == TableFrame(ram, DirectoryOf(ram, chunk), page / PAGE_WORDS) && a % PAGE_SIZE / 4 == page % PAGE_WORDS
  }

  /** With the scratch page mapped to itself, a character that avoids it reads as before. */
  lemma MappedChar(
      before: Ram, zeroed: Ram, mapped: Ram, chunk: nat, virt: Word, j: nat, frame: nat, entry: Word, size: nat)
    requires size <= PAGE_SIZE && Formed(before, chunk) && frame < FRAMES && frame !in Frames(before, chunk)
    requires SameElsewhere(before, zeroed, [frame]) && mapped == SetEntry(zeroed, chunk, frame, entry)
    requires CharAvoids(before, chunk, virt, j, frame)
    ensures Char(mapped, TaskPage(chunk), virt, j) == Char(before, TaskPage(chunk), virt, j)
    ensures Off(mapped, TaskPage(chunk), virt, j, frame * PAGE_SIZE, size)
  {
    hide Flat, Frames, And, NoRepeats;
    var a := (virt + j) % WORD_LIMIT;
    FramesInRange(before, chunk);
    OwnFramesOnly(before, zeroed, chunk);
    SetEntryFlat(zeroed, chunk, frame, entry);
    assert Flat(mapped, chunk)[a / PAGE_SIZE] == Flat(before, chunk)[a / PAGE_SIZE];
    SameTables(before, zeroed, chunk, frame);
    var source := Translate(Flat(before, chunk), a);
    assert source == Translate(Flat(mapped, chunk), a);
    assert mapped[source / PAGE_SIZE][source % PAGE_SIZE / 4] == zeroed[source / PAGE_SIZE][source % PAGE_SIZE / 4];
  }

  lemma SameTables(before: Ram, after: Ram, chunk: nat, page: nat)
    requires chunk < FRAMES && page < PAGES && page !in Frames(before, chunk) && SameElsewhere(before, after, [page])
    ensures TableFrame(after, DirectoryOf(after, chunk), page / PAGE_WORDS)
      == TableFrame(before, DirectoryOf(before, chunk), page / PAGE_WORDS)
  {
    assert Frames(before, chunk)[0] == chunk && Frames(before, chunk)[1] == DirectoryOf(before, chunk);
  }

  /** So the string read through the changed map is the string read through the old one. */
  lemma MappedString(
      before: Ram, zeroed: Ram, mapped: Ram, chunk: nat, virt: Word, limit: nat, frame: nat, entry: Word, size: nat)
    requires size <= PAGE_SIZE && Formed(before, chunk) && frame < FRAMES && frame !in Frames(before, chunk)
    requires SameElsewhere(before, zeroed, [frame]) && mapped == SetEntry(zeroed, chunk, frame, entry)
    requires Avoids(before, chunk, virt, limit, frame)
    ensures ReadString(mapped, TaskPage(chunk), virt, limit) == ReadString(before, TaskPage(chunk), virt, limit)
    ensures Disjoint(mapped, TaskPage(chunk), virt, limit, frame * PAGE_SIZE, size)
  {
    hide Frames, Flat, CharAvoids, Char, Off, SetEntry;
    var s := ReadString(before, TaskPage(chunk), virt, limit);
    forall j | 0 <= j < limit && j <= |s|
      ensures Char(mapped, TaskPage(chunk), virt, j) == Char(before, TaskPage(chunk), virt, j)
      ensures Off(mapped, TaskPage(chunk), virt, j, frame * PAGE_SIZE, size)
    {
      MappedChar(before, zeroed, mapped, chunk, virt, j, frame, entry, size);
    }
    ReadStringIs(mapped, TaskPage(chunk), virt, limit, s);
  }

  /** The entry copy_string_from_task installs: the scratch page mapped to itself. */
  function ScratchEntry(frame: nat): Word
    requires frame < FRAMES
  {
    RangeEntry(frame * PAGE_SIZE, 0, READ_WRITE)
  }

  lemma ZeroedSame(before: Ram, zeroed: Ram, chunk: nat, frame: nat)
    requires Formed(before, chunk) && frame !in Frames(before, chunk) && SameElsewhere(before, zeroed, [frame])
    ensures Formed(zeroed, chunk) && Flat(zeroed, chunk) == Flat(before, chunk)
    ensures Frames(zeroed, chunk) == Frames(before, chunk)
  {
    hide Flat;
    FramesInRange(before, chunk);
    OwnFramesOnly(before, zeroed, chunk);
  }

  lemma ScratchBuffer(before: Ram, zeroed: Ram, mapped: Ram, chunk: nat, frame: nat, size: nat)
    requires size <= PAGE_SIZE && Formed(before, chunk) && frame < FRAMES && frame !in Frames(before, chunk)
    requires SameElsewhere(before, zeroed, [frame]) && mapped == SetEntry(zeroed, chunk, frame, ScratchEntry(frame))
    ensures Formed(zeroed, chunk) && Formed(mapped, chunk) && Flat(zeroed, chunk) == Flat(before, chunk)
    ensures Frames(zeroed, chunk) == Frames(before, chunk)
    ensures GoodBuffer(mapped, TaskPage(chunk), frame * PAGE_SIZE, size)
  {
    hide Flat, Frames, NoRepeats, And, Or, RangeEntry, SetEntry;
    ZeroedSame(before, zeroed, chunk, frame);
    SetEntryFlat(zeroed, chunk, frame, ScratchEntry(frame));
    SetEntryFrames(zeroed, chunk, frame, ScratchEntry(frame));
    assert And(ScratchEntry(frame), 0xffff_f000) == frame * PAGE_SIZE by {
      EntryWritable(frame * PAGE_SIZE, 0, READ_WRITE);
    }
    forall a: Word | frame * PAGE_SIZE <= a < frame * PAGE_SIZE + size
      ensures Phys(mapped, TaskPage(chunk), a) == a
    {
      assert a / PAGE_SIZE == frame && Flat(mapped, chunk)[frame] == ScratchEntry(frame);
    }
  }

  lemma SamePageSameByte(a: Ram, b: Ram, frame: nat, x: Word)
    requires frame < FRAMES && a[frame] == b[frame] && x / PAGE_SIZE == frame
    ensures ByteAt(a, x) == ByteAt(b, x)
  {
  }

  /** The kernel reads back from the scratch page what was written there. */
  lemma ReadBack(mapped: Ram, used: Ram, ram: Ram, frame: nat, size: nat, s: seq<Byte>)
    requires 0 < size <= PAGE_SIZE && frame < FRAMES && |s| < size
    requires Written(mapped, used, frame * PAGE_SIZE, size, s + [0]) && ram[frame] == used[frame]
    requires NoNul(s)
    ensures ReadString(ram, KernelPage, frame * PAGE_SIZE, size - 1) == s
  {
    hide ByteAt, ReadString, Flat;
    var tmp := frame * PAGE_SIZE;
    forall j | 0 <= j <= |s| ensures Char(ram, KernelPage, tmp, j) == (s + [0])[j] {
      SamePageSameByte(used, ram, frame, tmp + j);
      assert (tmp + j) % WORD_LIMIT == tmp + j;
    }
    ReadStringIs(ram, KernelPage, tmp, size - 1, s);
  }

  /** Away from the scratch page, memory is as before but for the string and its NUL at `dest`. */
  ghost predicate Delivered(before: Ram, after: Ram, dest: Word, s: seq<Byte>, scratch: nat) {
    forall x: Word :: x / PAGE_SIZE != scratch ==>
      ByteAt(after, x) ==
        if dest <= x < dest + |s| then s[x - dest] else if x == dest + |s| then 0 else ByteAt(before, x)
  }

  /** The pages of a buffer are neither the scratch page nor page tables of the space. */
  ghost predicate Clear(ram: Ram, chunk: nat, dest: Word, size: nat, scratch: nat)
    requires chunk < FRAMES
  {
    dest + size <= WORD_LIMIT &&
    forall f :: f in Frames(ram, chunk) || f == scratch ==> !InRange(dest, size, f)
  }

  lemma WrittenDelivers(before: Ram, restored: Ram, after: Ram, chunk: nat, dest: Word, size: nat, s: seq<Byte>, scratch: nat)
    requires Formed(before, chunk) && scratch !in Frames(before, chunk) && Clear(before, chunk, dest, size, scratch)
    requires SameElsewhere(before, restored, [scratch]) && Written(restored, after, dest, size, s + [0])
    ensures Formed(after, chunk) && Frames(after, chunk) == Frames(before, chunk)
    ensures Flat(after, chunk) == Flat(before, chunk)
    ensures Delivered(before, after, dest, s, scratch)
  {
    FramesInRange(before, chunk);
    OwnFramesOnly(before, after, chunk);
    forall x: Word | x / PAGE_SIZE != scratch ensures ByteAt(restored, x) == ByteAt(before, x) {
    }
  }

  /**
   The middle of copy_string_from_task: with the scratch page mapped into the space
   a string is copied to it, and then the old entry is put back.
   */
  method CopyToScratch(k: Kernel, chunk: nat, virt: Word, tmp: Word, max: nat, ghost before: Ram, ghost scratch: nat)
      returns (res: int, ghost copied: seq<Byte>)
    requires 0 < max < PAGE_SIZE && scratch < FRAMES && tmp == scratch * PAGE_SIZE
    requires chunk < FRAMES && Formed(before, chunk) && scratch !in Frames(before, chunk)
    requires SameElsewhere(before, k.ram, [scratch])
    modifies k`ram
    ensures res == 0 && |copied| < max && SameElsewhere(before, k.ram, [scratch])
    ensures ReadString(k.ram, KernelPage, tmp, max - 1) == copied
    ensures Avoids(before, chunk, virt, max - 1, scratch) ==> copied == ReadString(before, TaskPage(chunk), virt, max - 1)
  {
    hide Frames, Flat, NoRepeats, Avoids, Written, ReadString, Length, Char, SetEntry, Apply, BytesThrough, BytesAt,
         SameElsewhere, Disjoint, GoodBuffer, Formed, RangeEntry;
    ghost var zeroed, mapped := k.ram, SetEntry(k.ram, chunk, scratch, ScratchEntry(scratch));
    ScratchBuffer(before, zeroed, mapped, chunk, scratch, max);
    if Avoids(before, chunk, virt, max - 1, scratch) {
      MappedString(before, zeroed, mapped, chunk, virt, max - 1, scratch, ScratchEntry(scratch), max);
    }
    MapIsSet(zeroed, chunk, tmp, tmp, READ_WRITE);

    var directory := k.ram[chunk][0];
    var oldEntry := PagingGet(k, chunk, directory, tmp);
    var _ := PagingMap(k, chunk, tmp, tmp, READ_WRITE);
    copied := Strncpy(k, TaskPage(chunk), tmp, virt, max);
    ghost var used := k.ram;
    WrittenInPage(mapped, used, scratch, max, copied + [0]);
    RemapUndone(zeroed, mapped, used, chunk, scratch, ScratchEntry(scratch), scratch);
    SetIsRangeOfOne(used, chunk, tmp, oldEntry);
    res := PagingSet(k, chunk, directory, tmp, oldEntry);
    ReadBack(mapped, used, k.ram, scratch, max, copied);
    Restored(before, zeroed, k.ram, scratch);
  }

  /** The last step: from the scratch page, through the kernel's map, to the destination. */
  method Deliver(k: Kernel, chunk: nat, dest: Word, tmp: Word, max: nat, ghost before: Ram, ghost scratch: nat,
      ghost copied: seq<Byte>)
    requires 0 < max < PAGE_SIZE && scratch < FRAMES && tmp == scratch * PAGE_SIZE && chunk < FRAMES
    requires Formed(before, chunk) && scratch !in Frames(before, chunk) && Clear(before, chunk, dest, max, scratch)
    requires SameElsewhere(before, k.ram, [scratch]) && ReadString(k.ram, KernelPage, tmp, max - 1) == copied
    modifies k`ram
    ensures Formed(k.ram, chunk) && Frames(k.ram, chunk) == Frames(before, chunk)
    ensures Flat(k.ram, chunk) == Flat(before, chunk)
    ensures Delivered(before, k.ram, dest, copied, scratch)
  {
    hide Frames, Flat, NoRepeats, Delivered, Written, ReadString, SameElsewhere, Disjoint, GoodBuffer, Formed, Clear,
         BytesAt, BytesThrough;
    ghost var restored := k.ram;
    KernelBuffer(before, restored, chunk, dest, max, scratch);
    var _ := Strncpy(k, KernelPage, dest, tmp, max);
    WrittenDelivers(before, restored, k.ram, chunk, dest, max, copied, scratch);
  }

  /**
   copy_string_from_task. Whatever the source string, the page map and the block
   table are as before and a string shorter than max arrives with its NUL; it is
   the string of the other space if that avoids the scratch page and its entry.
   */
  method CopyStringFromTask(k: Kernel, chunk: nat, virt: Word, phys: Word, max: int)
      returns (res: int, ghost copied: seq<Byte>)
    requires k.Valid() && chunk < FRAMES && Formed(k.ram, chunk) && Owned(Live(k.Table()), k.Frame(0), Frames(k.ram, chunk))
    requires 0 < max
    requires max < PAGE_SIZE && StartBlock(k.Table(), 1) >= 0 ==>
      Clear(k.ram, chunk, phys, max, k.Frame(StartBlock(k.Table(), 1)))
    modifies k`ram, k.heap.entries
    ensures k.Valid() && k.Table() == old(k.Table())
    ensures Formed(k.ram, chunk) && Frames(k.ram, chunk) == Frames(old(k.ram), chunk)
    ensures Flat(k.ram, chunk) == Flat(old(k.ram), chunk)
    ensures res == if max >= PAGE_SIZE then -EINVARG else if StartBlock(old(k.Table()), 1) < 0 then -ENOMEM else 0
    ensures res != 0 ==> k.ram == old(k.ram)
    ensures res == 0 ==>
      var scratch := k.Frame(StartBlock(old(k.Table()), 1));
      && |copied| < max && Delivered(old(k.ram), k.ram, phys, copied, scratch)
      && (Avoids(old(k.ram), chunk, virt, max - 1, scratch) ==>
            copied == ReadString(old(k.ram), TaskPage(chunk), virt, max - 1))
    ensures res == 0 && Avoids(old(k.ram), chunk, virt, max - 1, k.Frame(StartBlock(old(k.Table()), 1))) ==>
      BytesThrough(old(k.ram), Flat(old(k.ram), chunk), virt, max - 1, copied)
  {
    hide BytesThrough, BytesAt, Live, StartBlock, Frames, Flat, NoRepeats, Avoids, Delivered, Written, ReadString,
         SameElsewhere, MarkFree, WellFormed, Disjoint, GoodBuffer, Formed, Clear, Owned;
    copied := [];
    if max >= PAGE_SIZE {
      return -EINVARG, copied;
    }
    ghost var before, t := k.ram, k.Table();
    var tmp := KzallocSmall(k, max);
    if tmp == 0 {
      return -ENOMEM, copied;
    }
    ghost var scratch := k.Frame(StartBlock(t, 1));
    TaskBytes(before, chunk, virt, max - 1);
    ScratchIsFresh(Live(t), k.Frame(0), StartBlock(t, 1), Frames(before, chunk));
    res, copied := CopyToScratch(k, chunk, virt, tmp, max, before, scratch);
    if res < 0 {
      res := -EIO;
    } else {
      Deliver(k, chunk, phys, tmp, max, before, scratch, copied);
    }
    MallocThenFree(t, 1);
    k.Kfree(tmp);
  }

  lemma ScratchIsFresh(live: map<nat, nat>, base: nat, s: nat, frames: seq<nat>)
    requires Owned(live, base, frames) && s !in live
    ensures base + s !in frames
  {
  }

  lemma Restored(before: Ram, zeroed: Ram, restored: Ram, scratch: nat)
    requires SameElsewhere(before, zeroed, [scratch]) && SameElsewhere(zeroed, restored, [scratch])
    ensures SameElsewhere(before, restored, [scratch])
  {
  }

  lemma KernelBuffer(before: Ram, ram: Ram, chunk: nat, dest: Word, size: nat, scratch: nat)
    requires 0 < size <= PAGE_SIZE && chunk < FRAMES && scratch < FRAMES && Clear(before, chunk, dest, size, scratch)
    ensures GoodBuffer(ram, KernelPage, dest, size)
    ensures Disjoint(ram, KernelPage, scratch * PAGE_SIZE, size - 1, dest, size)
  {
  }
}
