/**
 kheap.c: the kernel heap over physical memory.
 */
module Kheap {
  import opened Bits
  import opened BlockTable
  import opened HeapRuns
  import opened BlockHeap
  import opened Memory

  /** `after` is `before` with `size` bytes at `ptr` set to `value`. */
  ghost predicate Filled(before: Ram, after: Ram, ptr: Word, size: nat, value: Byte) {
    && (forall x: Word :: ByteAt(after, x) == if ptr <= x < ptr + size then value else ByteAt(before, x))
    && (forall f :: 0 <= f < FRAMES && (f < ptr / PAGE_SIZE || ptr + size <= f * PAGE_SIZE) ==> after[f] == before[f])
  }

  lemma FilledStep(before: Ram, mid: Ram, ptr: Word, i: nat, value: Byte)
    requires ptr + i < WORD_LIMIT && Filled(before, mid, ptr, i, value)
    ensures Filled(before, SetByte(mid, ptr + i, value), ptr, i + 1, value)
  {
    var after := SetByte(mid, ptr + i, value);
    forall x: Word ensures ByteAt(after, x) == if ptr <= x < ptr + i + 1 then value else ByteAt(before, x) {
      SetByteAt(mid, ptr + i, value, x);
      assert ByteAt(mid, x) == if ptr <= x < ptr + i then value else ByteAt(before, x);
    }
    forall f | 0 <= f < FRAMES && (f < ptr / PAGE_SIZE || ptr + i + 1 <= f * PAGE_SIZE)
      ensures after[f] == before[f]
    {
      SetByteFrame(mid, ptr + i, value, f);
    }
  }

  class Kernel {
    const heap: Heap
    var ram: Ram

    constructor (h: Heap, memory: Ram)
      ensures heap == h && ram == memory
    {
      heap, ram := h, memory;
    }

    ghost predicate Valid()
      reads this, heap, heap.entries
    {
      heap.Valid()
    }

    /** The block table, as a value. */
    ghost function Table(): Table
      reads this, heap, heap.entries
    {
      heap.entries[..]
    }

    /** The page frame of a heap block. */
    ghost function Frame(block: nat): nat
      reads this, heap
    {
      heap.saddr / PAGE_SIZE + block
    }

    method Memset(ptr: Word, value: Byte, size: nat)
      requires ptr + size <= WORD_LIMIT
      modifies this`ram
      ensures Filled(old(ram), ram, ptr, size, value)
    {
      for i := 0 to size
        invariant Filled(old(ram), ram, ptr, i, value)
      {
        FilledStep(old(ram), ram, ptr, i, value);
        ram := SetByte(ram, ptr + i, value);
      }
    }

    /** kzalloc: the first fit, zero-filled, or 0. */
    method Kzalloc(size: Word) returns (ptr: Word)
      requires Valid() && size <= WORD_LIMIT - BLOCK_SIZE
      requires InBounds(Table(), BlocksFor(size))
      modifies this`ram, heap.entries
      ensures Valid()
      ensures var (u, s) := MallocBlocks(old(Table()), BlocksFor(size));
        && Table() == u
        && (s < 0 ==> ptr == 0 && ram == old(ram))
        && (s >= 0 ==>
          && ptr == heap.Address(s) && heap.InPool(ptr) && ptr != 0 && Aligned(ptr) && heap.Block(ptr) == s
          && Filled(old(ram), ram, ptr, size, 0))
    {
      BlocksForIs(size);
      ptr := heap.Malloc(size);
      if ptr == 0 {
        return;
      }
      Memset(ptr, 0, size);
    }

    /** kfree of an address in the pool. */
    method Kfree(ptr: Word)
      requires heap.InPool(ptr)
      modifies heap.entries
      ensures Table() == MarkFree(old(Table()), heap.Block(ptr))
      ensures old(Valid()) && heap.Block(ptr) in Live(old(Table())) ==> Valid()
    {
      heap.Free(ptr);
    }
  }

  const HEAP_SIZE_BYTES := 104857600
  const HEAP_ADDRESS: Word := 0x0100_0000

  /** kheap_init: the kernel heap comes up valid, with every block free. */
  method KheapInit(heap: Heap, table: array<bv8>)
    requires table.Length == HEAP_SIZE_BYTES / BLOCK_SIZE
    modifies heap, table
    ensures heap.Valid() && heap.entries == table && heap.saddr == HEAP_ADDRESS
    ensures Live(table[..]) == map[] && FreeCount(table[..]) == 25600
  {
    var res := heap.Create(HEAP_ADDRESS, HEAP_ADDRESS + HEAP_SIZE_BYTES, table);
  }
}
