/**
 heap.c: the block heap, its table updated in place.
 */
module BlockHeap {
  import opened StatusCodes
  import opened Bits
  import opened BlockTable
  import opened HeapRuns

  const BLOCK_SIZE := 4096

  predicate Aligned(address: Word) {
    address % BLOCK_SIZE == 0
  }

  /** heap_align_value_to_upper, in 32-bit arithmetic. */
  function AlignUp(size: Word): Word {
    if size % BLOCK_SIZE == 0 then size
    else (size - size % BLOCK_SIZE + BLOCK_SIZE) % WORD_LIMIT
  }

  function BlocksFor(size: Word): nat {
    AlignUp(size) / BLOCK_SIZE
  }

  /** Sizes round up to whole blocks, except that the last 4095 sizes wrap round to none. */
  lemma BlocksForIs(size: Word)
    ensures size <= WORD_LIMIT - BLOCK_SIZE ==>
      size <= BLOCK_SIZE * BlocksFor(size) < size + BLOCK_SIZE
    ensures BlocksFor(size) == 0 <==> size == 0 || size > WORD_LIMIT - BLOCK_SIZE
  {
  }

  /** The addresses of allocation a: from its first byte to behind its last. */
  function ByteRange(saddr: nat, live: map<nat, nat>, a: nat): (nat, nat)
    requires a in live
  {
    (saddr + BLOCK_SIZE * a, saddr + BLOCK_SIZE * (a + live[a]))
  }

  predicate DisjointRanges(x: (nat, nat), y: (nat, nat)) {
    x.1 <= y.0 || y.1 <= x.0
  }

  /**
   After any legal run on a well-formed table, the byte range of every live
   allocation is not empty and lies in the pool, and no two overlap.
   */
  lemma BytesApart(saddr: nat, t: Table, ops: seq<HeapOp>)
    requires WellFormed(t) && Legal(t, ops)
    ensures var live := Live(Run(t, ops));
      && (forall a :: a in live ==>
           var (from, to) := ByteRange(saddr, live, a); saddr <= from < to <= saddr + BLOCK_SIZE * |t|)
      && (forall a, b :: a in live && b in live && a != b ==>
           DisjointRanges(ByteRange(saddr, live, a), ByteRange(saddr, live, b)))
  {
    RunRefines(t, ops);
    var u, live := Run(t, ops), Live(Run(t, ops));
    hide Live, Run, Legal, DisjointRanges;
    forall a | a in live ensures live[a] > 0 && a + live[a] <= |t| {
      assert Chain(u, a, live[a]);
    }
    forall a, b | a in live && b in live && a != b
      ensures DisjointRanges(ByteRange(saddr, live, a), ByteRange(saddr, live, b))
    {
      LiveApart(saddr, u, live, a, b);
    }
  }

  lemma LiveApart(saddr: nat, t: Table, live: map<nat, nat>, a: nat, b: nat)
    requires Represents(t, live) && a in live && b in live && a != b
    ensures DisjointRanges(ByteRange(saddr, live, a), ByteRange(saddr, live, b))
  {
    hide Represents;
    if a < b { LiveDisjoint(t, live, a, b); } else { LiveDisjoint(t, live, b, a); }
  }

  class Heap {
    var saddr: Word
    var entries: array<bv8>

    /** A usable heap: a pool of whole blocks, above address 0, addressable by a C int. */
    ghost predicate Valid()
      reads this, entries
    {
      && Aligned(saddr) && 0 < saddr
      && entries.Length <= 0x8_0000
      && saddr + BLOCK_SIZE * entries.Length <= WORD_LIMIT
      && WellFormed(entries[..])
    }

    /** heap_block_to_address. */
    function Address(block: nat): nat
      reads this
    {
      saddr + block * BLOCK_SIZE
    }

    /** heap_address_to_block, for an address in the pool. */
    function Block(address: Word): nat
      requires saddr <= address
      reads this
    {
      (address - saddr) / BLOCK_SIZE
    }

    predicate InPool(address: Word)
      reads this
    {
      saddr <= address < saddr + BLOCK_SIZE * entries.Length
    }

    /** heap_create: the table must have one entry per block between ptr and end. */
    method Create(ptr: Word, end: Word, table: array<bv8>) returns (res: int)
      modifies this, table
      ensures res == 0 <==>
        Aligned(ptr) && Aligned(end) && table.Length == (end - ptr) % WORD_LIMIT / BLOCK_SIZE
      ensures res != 0 ==> res == -EINVARG && table[..] == old(table[..])
      ensures res == 0 ==>
        && saddr == ptr && entries == table
        && WellFormed(table[..]) && Live(table[..]) == map[] && FreeCount(table[..]) == table.Length
      ensures res == 0 && 0 < ptr <= end && end - ptr <= 0x8000_0000 ==> Valid()
    {
      if !Aligned(ptr) || !Aligned(end) {
        return -EINVARG;
      }
      saddr, entries := ptr, table;
      if table.Length != (end - ptr) % WORD_LIMIT / BLOCK_SIZE {
        return -EINVARG;
      }
      for i := 0 to table.Length
        invariant entries == table && saddr == ptr
        invariant forall j :: 0 <= j < i ==> table[j] == FREE
      {
        table[i] := FREE;
      }
      FreshTable(table[..]);
      res := 0;
    }

    /** heap_get_start_block: bc counts the free run in progress, bs is its start. */
    method GetStartBlock(totalBlocks: nat) returns (r: int)
      ensures r == StartBlock(entries[..], totalBlocks)
    {
      ghost var t := entries[..];
      var bc, bs := 0, -1;
      var i := 0;
      while i < entries.Length
        invariant 0 <= i <= entries.Length && -1 <= bs < i
        invariant bc == if bs == -1 then 0 else i - bs
        invariant Scan(t, totalBlocks, i, bs) == StartBlock(t, totalBlocks)
      {
        if !IsFree(entries[i]) {
          bc, bs := 0, -1;
        } else {
          if bs == -1 {
            bs := i;
          }
          bc := bc + 1;
          if bc == totalBlocks {
            return bs;
          }
        }
        i := i + 1;
      }
      r := if bs == -1 then -ENOMEM else bs;
    }

    /** heap_mark_blocks_taken. */
    method MarkBlocksTaken(startBlock: nat, totalBlocks: nat)
      requires startBlock + totalBlocks <= entries.Length
      modifies entries
      ensures entries[..] == MarkTaken(old(entries[..]), startBlock, totalBlocks)
    {
      var endBlock := startBlock + totalBlocks - 1;
      var entry := TAKEN | IS_FIRST;
      if totalBlocks > 1 {
        entry := entry | HAS_NEXT;
      }
      var i := startBlock;
      while i <= endBlock
        invariant startBlock <= i <= endBlock + 1
        invariant i <= endBlock ==> entry == ChainEntry(i - startBlock, totalBlocks)
        invariant forall j :: startBlock <= j < i ==> entries[j] == ChainEntry(j - startBlock, totalBlocks)
        invariant forall j :: 0 <= j < entries.Length && !(startBlock <= j < i) ==> entries[j] == old(entries[j])
      {
        entries[i] := entry;
        entry := TAKEN;
        if i != endBlock - 1 {
          entry := entry | HAS_NEXT;
        }
        i := i + 1;
      }
    }

    /** heap_mark_blocks_free. */
    method MarkBlocksFree(startingBlock: nat)
      modifies entries
      ensures entries[..] == MarkFree(old(entries[..]), startingBlock)
    {
      var i := startingBlock;
      while i < entries.Length
        invariant MarkFree(entries[..], i) == MarkFree(old(entries[..]), startingBlock)
      {
        var entry := entries[i];
        ghost var t := entries[..];
        entries[i] := FREE;
        assert entries[..] == t[i := FREE];
        if !HasNext(entry) {
          return;
        }
        i := i + 1;
      }
    }

    /** heap_malloc: the address of the first fit, or 0. */
    method Malloc(size: Word) returns (ptr: Word)
      requires Valid() && InBounds(entries[..], BlocksFor(size))
      modifies entries
      ensures Valid()
      ensures var (u, s) := MallocBlocks(old(entries[..]), BlocksFor(size));
        && entries[..] == u
        && (s < 0 ==> ptr == 0)
        && (s >= 0 ==> ptr == Address(s) && InPool(ptr) && ptr != 0 && Aligned(ptr) && Block(ptr) == s)
    {
      StartBlockRange(entries[..], BlocksFor(size));
      MallocKeeps(entries[..], BlocksFor(size));
      var totalBlocks := AlignUp(size) / BLOCK_SIZE;
      var startBlock := GetStartBlock(totalBlocks);
      if startBlock < 0 {
        return 0;
      }
      MarkBlocksTaken(startBlock, totalBlocks);
      ptr := Address(startBlock);
    }

    /** heap_free of an address in the pool; freeing a live start keeps the heap valid. */
    method Free(ptr: Word)
      requires InPool(ptr)
      modifies entries
      ensures entries[..] == MarkFree(old(entries[..]), Block(ptr))
      ensures old(Valid()) && Block(ptr) in Live(old(entries[..])) ==> Valid()
    {
      ghost var t := entries[..];
      MarkBlocksFree(Block(ptr));
      if WellFormed(t) && Block(ptr) in Live(t) {
        FreeStep(t, Block(ptr));
      }
    }
  }
}
