/**
 Two-level page tables in physical memory, and the flat page map they refine.

 An address space is reached from its chunk frame: word 0 of the chunk points
 at the directory, and each of the 1024 directory entries points, flags aside,
 at a table of 1024 entries.
 */
module PageTables {
  import opened Bits
  import opened Memory
  import opened PageBlocks

  const PAGES := 0x10_0000

  const PRESENT := 0x1
  const WRITABLE := 0x2
  const ACCESS_ALL := 0x4

  type PageMap = m: seq<Word> | |m| == PAGES witness seq<Word>(PAGES, _ => 0)

  // ---------------------------------------------------------------------
  // Lookup through the two levels
  // ---------------------------------------------------------------------

  function DirectoryOf(ram: Ram, chunk: nat): nat
    requires chunk < FRAMES
  {
    ram[chunk][0] / PAGE_SIZE
  }

  /** The table an entry points at: the entry with its low twelve bits masked off. */
  function TableOf(entry: Word): nat {
    And(entry, 0xffff_f000) / PAGE_SIZE
  }

  function TableFrame(ram: Ram, dir: nat, i: nat): nat
    requires dir < FRAMES && i < PAGE_WORDS
  {
    TableOf(ram[dir][i])
  }

  function Lookup(ram: Ram, dir: nat, page: nat): Word
    requires dir < FRAMES && page < PAGES
  {
    ram[TableFrame(ram, dir, page / PAGE_WORDS)][page % PAGE_WORDS]
  }

  /** The whole space as one flat map from page numbers to entries. */
  function Flat(ram: Ram, chunk: nat): PageMap
    requires chunk < FRAMES
  {
    seq(PAGES, page requires 0 <= page < PAGES => Lookup(ram, DirectoryOf(ram, chunk), page))
  }

  /** The directory's page. */
  function Directory(ram: Ram, chunk: nat): Page
    requires chunk < FRAMES
  {
    ram[ram[chunk][0] / PAGE_SIZE]
  }

  /** All entries of the directory carry these bits beside their table's address. */
  predicate Carries(directory: Page, bits: nat) {
    forall i :: 0 <= i < PAGE_WORDS ==> directory[i] % PAGE_SIZE == bits
  }

  /** An access is allowed if its bit is set at both levels. */
  predicate Allows(ram: Ram, chunk: nat, page: nat, bit: nat)
    requires chunk < FRAMES && page < PAGES
  {
    And(Directory(ram, chunk)[page / PAGE_WORDS], bit) != 0 && And(Flat(ram, chunk)[page], bit) != 0
  }

  // ---------------------------------------------------------------------
  // The memory an address space owns
  // ---------------------------------------------------------------------

  /** The 1026 frames of a space: its chunk, its directory and its tables. */
  function Frames(ram: Ram, chunk: nat): (r: seq<nat>)
    requires chunk < FRAMES
    ensures |r| == PAGE_WORDS + 2
  {
    [chunk, DirectoryOf(ram, chunk)]
    + seq(PAGE_WORDS, i requires 0 <= i < PAGE_WORDS => TableFrame(ram, DirectoryOf(ram, chunk), i))
  }

  ghost predicate Formed(ram: Ram, chunk: nat) {
    && chunk < FRAMES
    && ram[chunk][0] % PAGE_SIZE == 0
    && NoRepeats(Frames(ram, chunk))
  }

  ghost predicate Separate(ram: Ram, a: nat, b: nat)
    requires a < FRAMES && b < FRAMES
  {
    forall f :: f in Frames(ram, a) ==> f !in Frames(ram, b)
  }

  lemma TableInFrames(ram: Ram, chunk: nat, i: nat)
    requires chunk < FRAMES && i < PAGE_WORDS
    ensures Frames(ram, chunk)[i + 2] == TableFrame(ram, DirectoryOf(ram, chunk), i)
    ensures TableFrame(ram, DirectoryOf(ram, chunk), i) in Frames(ram, chunk)
  {
  }

  /** A space depends on its own frames only. */
  lemma OwnFramesOnly(before: Ram, after: Ram, chunk: nat)
    requires chunk < FRAMES
    requires forall f :: f in Frames(before, chunk) ==> f < FRAMES && after[f] == before[f]
    ensures Frames(after, chunk) == Frames(before, chunk)
    ensures Flat(after, chunk) == Flat(before, chunk) && Directory(after, chunk) == Directory(before, chunk)
    ensures Formed(before, chunk) ==> Formed(after, chunk)
  {
    assert Frames(before, chunk)[0] == chunk && Frames(before, chunk)[1] == DirectoryOf(before, chunk);
    forall p | 0 <= p < PAGES ensures Flat(after, chunk)[p] == Flat(before, chunk)[p] {
      TableInFrames(before, chunk, p / PAGE_WORDS);
    }
  }

  // ---------------------------------------------------------------------
  // Writing one entry
  // ---------------------------------------------------------------------

  function SetEntry(ram: Ram, chunk: nat, page: nat, val: Word): Ram
    requires chunk < FRAMES && page < PAGES
  {
    WithWord(ram, TableFrame(ram, DirectoryOf(ram, chunk), page / PAGE_WORDS), page % PAGE_WORDS, val)
  }

  lemma SetEntryFrames(ram: Ram, chunk: nat, page: nat, val: Word)
    requires Formed(ram, chunk) && page < PAGES
    ensures Frames(SetEntry(ram, chunk, page, val), chunk) == Frames(ram, chunk)
    ensures Directory(SetEntry(ram, chunk, page, val), chunk) == Directory(ram, chunk)
  {
    var frames, k := Frames(ram, chunk), page / PAGE_WORDS;
    TableInFrames(ram, chunk, k);
    assert frames[0] != frames[k + 2] && frames[1] != frames[k + 2];
  }

  /** In the flat view a write changes that page's entry and no other. */
  lemma SetEntryFlat(ram: Ram, chunk: nat, page: nat, val: Word)
    requires Formed(ram, chunk) && page < PAGES
    ensures var after := SetEntry(ram, chunk, page, val);
      Formed(after, chunk) && Flat(after, chunk) == Flat(ram, chunk)[page := val]
  {
    var after, frames, k := SetEntry(ram, chunk, page, val), Frames(ram, chunk), page / PAGE_WORDS;
    SetEntryFrames(ram, chunk, page, val);
    TableInFrames(ram, chunk, k);
    assert frames[0] != frames[k + 2];
    forall q | 0 <= q < PAGES ensures Flat(after, chunk)[q] == Flat(ram, chunk)[page := val][q] {
      var j := q / PAGE_WORDS;
      TableInFrames(ram, chunk, j);
      TableInFrames(after, chunk, j);
      assert j != k ==> frames[j + 2] != frames[k + 2];
      assert q == PAGE_WORDS * j + q % PAGE_WORDS && page == PAGE_WORDS * k + page % PAGE_WORDS;
    }
  }

  /** No write to one space shows in another that shares no frame with it. */
  lemma SetEntryElsewhere(ram: Ram, chunk: nat, page: nat, val: Word, other: nat)
    requires Formed(ram, chunk) && page < PAGES && other < FRAMES && Separate(ram, chunk, other)
    ensures var after := SetEntry(ram, chunk, page, val);
      && Frames(after, other) == Frames(ram, other)
      && Flat(after, other) == Flat(ram, other) && Directory(after, other) == Directory(ram, other)
      && (Formed(ram, other) ==> Formed(after, other))
  {
    TableInFrames(ram, chunk, page / PAGE_WORDS);
    FramesInRange(ram, other);
    OwnFramesOnly(ram, SetEntry(ram, chunk, page, val), other);
  }

  lemma FramesInRange(ram: Ram, chunk: nat)
    requires chunk < FRAMES
    ensures forall f :: f in Frames(ram, chunk) ==> f < FRAMES
  {
  }
}
