/**
 strncpy over translated memory: every access goes through the page map of the
 address space that is loaded.
 */
module UserStrings {
  import opened Bits
  import opened Memory
  import opened Buffers
  import opened Kheap
  import opened PageTables
  import opened ProcessImage

  /** The address space in force: the kernel's identity map, or a task's. */
  datatype Space = KernelPage | TaskPage(chunk: nat)

  predicate ValidSpace(space: Space) {
    space.TaskPage? ==> space.chunk < FRAMES
  }

  function Phys(ram: Ram, space: Space, a: Word): Word
    requires ValidSpace(space)
  {
    if space.KernelPage? then a else Translate(Flat(ram, space.chunk), a)
  }

  function Load(ram: Ram, space: Space, a: Word): Byte
    requires ValidSpace(space)
  {
    ByteAt(ram, Phys(ram, space, a))
  }

  /** Byte j of the string at `src`. */
  function Char(ram: Ram, space: Space, src: Word, j: nat): Byte
    requires ValidSpace(space)
  {
    Load(ram, space, (src + j) % WORD_LIMIT)
  }

  /** The position of the first NUL at or after position i, or `limit`. */
  function LengthFrom(ram: Ram, space: Space, src: Word, i: nat, limit: nat): (n: nat)
    requires ValidSpace(space) && i <= limit
    ensures i <= n <= limit
    ensures forall j :: i <= j < n ==> Char(ram, space, src, j) != 0
    ensures n < limit ==> Char(ram, space, src, n) == 0
    decreases limit - i
  {
    if i == limit || Char(ram, space, src, i) == 0 then i else LengthFrom(ram, space, src, i + 1, limit)
  }

  function Length(ram: Ram, space: Space, src: Word, limit: nat): nat
    requires ValidSpace(space)
  {
    LengthFrom(ram, space, src, 0, limit)
  }

  /** The bytes strncpy copies from `src`: up to a NUL, at most `limit` of them. */
  function ReadString(ram: Ram, space: Space, src: Word, limit: nat): (s: seq<Byte>)
    requires ValidSpace(space)
    ensures |s| == Length(ram, space, src, limit) <= limit
    ensures forall j :: 0 <= j < |s| ==> s[j] != 0
  {
    seq(Length(ram, space, src, limit), j requires 0 <= j => Char(ram, space, src, j))
  }

  /** The string at `src` is the one sequence of non-NUL bytes found there that stops at a NUL or the limit. */
  lemma ReadStringIs(ram: Ram, space: Space, src: Word, limit: nat, s: seq<Byte>)
    requires ValidSpace(space) && |s| <= limit
    requires forall j :: 0 <= j < |s| ==> s[j] == Char(ram, space, src, j) && s[j] != 0
    requires |s| < limit ==> Char(ram, space, src, |s|) == 0
    ensures ReadString(ram, space, src, limit) == s
  {
    hide Char;
    assert LengthFrom(ram, space, src, 0, limit) == |s|;
  }

  /** In bytes of memory: `s` is what lies at `src`, up to a NUL or the limit. */
  ghost predicate BytesAt(ram: Ram, src: Word, limit: nat, s: seq<Byte>) {
    && |s| <= limit
    && (forall j :: 0 <= j < |s| ==> s[j] == ByteAt(ram, (src + j) % WORD_LIMIT) && s[j] != 0)
    && (|s| < limit ==> ByteAt(ram, (src + |s|) % WORD_LIMIT) == 0)
  }

  /** The same with every address translated by a page map. */
  ghost predicate BytesThrough(ram: Ram, m: PageMap, src: Word, limit: nat, s: seq<Byte>) {
    && |s| <= limit
    && (forall j :: 0 <= j < |s| ==> s[j] == ByteAt(ram, Translate(m, (src + j) % WORD_LIMIT)) && s[j] != 0)
    && (|s| < limit ==> ByteAt(ram, Translate(m, (src + |s|) % WORD_LIMIT)) == 0)
  }

  lemma CharIs(ram: Ram, space: Space, src: Word, j: nat)
    requires ValidSpace(space)
    ensures space.KernelPage? ==> Char(ram, space, src, j) == ByteAt(ram, (src + j) % WORD_LIMIT)
    ensures space.TaskPage? ==>
      Char(ram, space, src, j) == ByteAt(ram, Translate(Flat(ram, space.chunk), (src + j) % WORD_LIMIT))
  {
  }

  lemma StringChars(ram: Ram, space: Space, src: Word, limit: nat, j: nat)
    requires ValidSpace(space) && j <= Length(ram, space, src, limit)
    ensures var s := ReadString(ram, space, src, limit);
      && (j < |s| ==> s[j] == Char(ram, space, src, j) && s[j] != 0)
      && (j == |s| < limit ==> Char(ram, space, src, j) == 0)
  {
    hide Char;
  }

  lemma KernelBytes(ram: Ram, src: Word, limit: nat)
    ensures BytesAt(ram, src, limit, ReadString(ram, KernelPage, src, limit))
  {
    hide ByteAt, Char, ReadString, Length;
    var s := ReadString(ram, KernelPage, src, limit);
    forall j | 0 <= j < |s| ensures s[j] == ByteAt(ram, (src + j) % WORD_LIMIT) && s[j] != 0 {
      StringChars(ram, KernelPage, src, limit, j);
      CharIs(ram, KernelPage, src, j);
    }
    StringChars(ram, KernelPage, src, limit, |s|);
    CharIs(ram, KernelPage, src, |s|);
    assert |s| < limit ==> ByteAt(ram, (src + |s|) % WORD_LIMIT) == 0;
    assert BytesAt(ram, src, limit, s);
  }

  lemma TaskBytes(ram: Ram, chunk: nat, src: Word, limit: nat)
    requires chunk < FRAMES
    ensures BytesThrough(ram, Flat(ram, chunk), src, limit, ReadString(ram, TaskPage(chunk), src, limit))
  {
    hide ByteAt, Translate, Flat, Char, ReadString, Length;
    var s, m := ReadString(ram, TaskPage(chunk), src, limit), Flat(ram, chunk);
    forall j | 0 <= j < |s| ensures s[j] == ByteAt(ram, Translate(m, (src + j) % WORD_LIMIT)) && s[j] != 0 {
      StringChars(ram, TaskPage(chunk), src, limit, j);
      CharIs(ram, TaskPage(chunk), src, j);
    }
    StringChars(ram, TaskPage(chunk), src, limit, |s|);
    CharIs(ram, TaskPage(chunk), src, |s|);
    assert |s| < limit ==> ByteAt(ram, Translate(m, (src + |s|) % WORD_LIMIT)) == 0;
    assert BytesThrough(ram, m, src, limit, s);
  }

  /** The buffer shares no page with the page tables in force, and is mapped to itself. */
  ghost predicate GoodBuffer(ram: Ram, space: Space, dest: Word, size: nat) {
    && ValidSpace(space) && dest + size <= WORD_LIMIT
    && (forall a: Word :: dest <= a < dest + size ==> Phys(ram, space, a) == a)
    && (space.TaskPage? ==> forall f :: f in Frames(ram, space.chunk) ==> !InRange(dest, size, f))
  }

  /** None of the bytes read lies on a page of the buffer. */
  ghost predicate Disjoint(ram: Ram, space: Space, src: Word, limit: nat, dest: Word, size: nat)
    requires ValidSpace(space)
  {
    forall j :: 0 <= j < limit && j <= Length(ram, space, src, limit) ==> Off(ram, space, src, j, dest, size)
  }

  predicate Off(ram: Ram, space: Space, src: Word, j: nat, dest: Word, size: nat)
    requires ValidSpace(space)
  {
    !InRange(dest, size, Phys(ram, space, (src + j) % WORD_LIMIT) / PAGE_SIZE)
  }

  /** Writing to a good buffer moves no translation and no byte off its pages. */
  lemma SameTranslation(before: Ram, after: Ram, space: Space, dest: Word, size: nat, s: seq<Byte>)
    requires GoodBuffer(before, space, dest, size) && Written(before, after, dest, size, s)
    ensures forall a: Word :: Phys(after, space, a) == Phys(before, space, a)
  {
    if space.TaskPage? {
      FramesInRange(before, space.chunk);
      OwnFramesOnly(before, after, space.chunk);
    }
  }

  lemma SameChar(
      before: Ram, after: Ram, space: Space, src: Word, j: nat, dest: Word, size: nat, s: seq<Byte>)
    requires GoodBuffer(before, space, dest, size) && Written(before, after, dest, size, s)
    requires Off(before, space, src, j, dest, size)
    ensures Char(after, space, src, j) == Char(before, space, src, j)
  {
    hide Flat, Translate, Frames;
    SameTranslation(before, after, space, dest, size, s);
  }

  predicate NoNul(s: seq<Byte>) {
    forall j :: 0 <= j < |s| ==> s[j] != 0
  }

  /**
   strncpy: some string shorter than count and a NUL arrive at dest, and nothing
   else changes. It is the string at src unless the buffer overlaps that.
   */
  method Strncpy(k: Kernel, space: Space, dest: Word, src: Word, count: nat) returns (ghost copied: seq<Byte>)
    requires count > 0 && GoodBuffer(k.ram, space, dest, count)
    modifies k`ram
    ensures |copied| < count && NoNul(copied) && Written(old(k.ram), k.ram, dest, count, copied + [0])
    ensures Disjoint(old(k.ram), space, src, count - 1, dest, count) ==>
      copied == ReadString(old(k.ram), space, src, count - 1)
    ensures Disjoint(old(k.ram), space, src, count - 1, dest, count) ==>
      if space.KernelPage? then BytesAt(old(k.ram), src, count - 1, copied)
      else BytesThrough(old(k.ram), Flat(old(k.ram), space.chunk), src, count - 1, copied)
  {
    hide BytesAt, BytesThrough, Flat, Char, Phys, Written, SetByte, Disjoint;
    ghost var ram := k.ram;
    if space.KernelPage? { KernelBytes(ram, src, count - 1); } else { TaskBytes(ram, space.chunk, src, count - 1); }
    ghost var s, apart := ReadString(ram, space, src, count - 1), Disjoint(ram, space, src, count - 1, dest, count);
    copied := [];
    NothingWritten(ram, dest, count);
    var i := 0;
    while i < count - 1
      invariant 0 <= i < count && |copied| == i && NoNul(copied)
      invariant Written(ram, k.ram, dest, count, copied)
      invariant apart ==> i <= |s| && copied == s[..i]
    {
      SameTranslation(ram, k.ram, space, dest, count, copied);
      if apart {
        DisjointAt(ram, space, src, count - 1, dest, count, i);
        SameChar(ram, k.ram, space, src, i, dest, count, copied);
      }
      var b := Char(k.ram, space, src, i);
      if b == 0 {
        break;
      }
      WriteNext(ram, k.ram, dest, count, copied, b);
      k.ram := SetByte(k.ram, Phys(k.ram, space, dest + i), b);
      copied := copied + [b];
      i := i + 1;
    }
    SameTranslation(ram, k.ram, space, dest, count, copied);
    WriteNext(ram, k.ram, dest, count, copied, 0);
    k.ram := SetByte(k.ram, Phys(k.ram, space, dest + i), 0);
  }

  lemma DisjointAt(ram: Ram, space: Space, src: Word, limit: nat, dest: Word, size: nat, j: nat)
    requires ValidSpace(space) && Disjoint(ram, space, src, limit, dest, size)
    requires j < limit && j <= Length(ram, space, src, limit)
    ensures Off(ram, space, src, j, dest, size)
  {
  }
}
