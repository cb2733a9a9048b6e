/** Byte buffers in physical memory. */
module Buffers {
  import opened Bits
  import opened Memory
  import opened PageBlocks

  predicate InRange(a: Word, size: nat, frame: nat) {
    a / PAGE_SIZE <= frame && frame * PAGE_SIZE < a + size
  }

  /** `after` is `before` with `s` written at `dest`; pages the buffer does not reach are kept. */
  ghost predicate Written(before: Ram, after: Ram, dest: Word, size: nat, s: seq<Byte>) {
    && (forall x: Word :: ByteAt(after, x) == if dest <= x < dest + |s| then s[x - dest] else ByteAt(before, x))
    && (forall f :: 0 <= f < FRAMES && !InRange(dest, size, f) ==> after[f] == before[f])
  }

  lemma WriteNext(before: Ram, mid: Ram, dest: Word, size: nat, s: seq<Byte>, b: Byte)
    requires |s| < size && dest + size <= WORD_LIMIT && Written(before, mid, dest, size, s)
    ensures Written(before, SetByte(mid, dest + |s|, b), dest, size, s + [b])
  {
    var after := SetByte(mid, dest + |s|, b);
    forall x: Word
      ensures ByteAt(after, x) == if dest <= x < dest + |s| + 1 then (s + [b])[x - dest] else ByteAt(before, x)
    {
      SetByteAt(mid, dest + |s|, b, x);
      assert ByteAt(mid, x) == if dest <= x < dest + |s| then s[x - dest] else ByteAt(before, x);
    }
    forall f | 0 <= f < FRAMES && !InRange(dest, size, f) ensures after[f] == before[f] {
      SetByteFrame(mid, dest + |s|, b, f);
    }
  }

  lemma NothingWritten(ram: Ram, dest: Word, size: nat)
    ensures Written(ram, ram, dest, size, [])
  {
  }

  lemma WrittenInPage(before: Ram, after: Ram, frame: nat, size: nat, s: seq<Byte>)
    requires frame < FRAMES && size <= PAGE_SIZE && Written(before, after, frame * PAGE_SIZE, size, s)
    ensures SameElsewhere(before, after, [frame])
  {
  }
}
