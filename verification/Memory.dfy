/**
 Physical memory: 2^20 pages of 1024 words, with little-endian byte access.
 */
module Memory {
  import opened Bits

  const PAGE_SIZE := 4096
  const PAGE_WORDS := 1024
  const FRAMES := 0x10_0000

  type Byte = x: int | 0 <= x < 256
  type Page = p: seq<Word> | |p| == PAGE_WORDS witness seq(PAGE_WORDS, _ => 0)
  type Ram = r: seq<Page> | |r| == FRAMES witness seq<Page>(FRAMES, _ => ZERO_PAGE)

  const ZERO_PAGE: Page := seq(PAGE_WORDS, _ => 0)

  function WithWord(ram: Ram, frame: nat, index: nat, w: Word): Ram
    requires frame < FRAMES && index < PAGE_WORDS
  {
    ram[frame := ram[frame][index := w]]
  }

  // ---------------------------------------------------------------------
  // Bytes within a word
  // ---------------------------------------------------------------------

  function WordByte(w: nat, k: nat): Byte {
    if k == 0 then w % 256 else WordByte(w / 256, k - 1)
  }

  function WithByte(w: nat, k: nat, b: Byte): nat {
    if k == 0 then w - w % 256 + b else 256 * WithByte(w / 256, k - 1, b) + w % 256
  }

  /** Byte k is replaced and no other. */
  lemma {:induction false} WithByteIs(w: nat, k: nat, b: Byte, j: nat)
    ensures WordByte(WithByte(w, k, b), j) == if j == k then b else WordByte(w, j)
  {
    if k == 0 {
      assert WithByte(w, 0, b) / 256 == w / 256;
    } else {
      var r := WithByte(w / 256, k - 1, b);
      assert (256 * r + w % 256) / 256 == r;
      if j > 0 { WithByteIs(w / 256, k - 1, b, j - 1); }
    }
  }

  /** Replacing one of the four bytes of a word leaves a word. */
  lemma {:induction false} WithByteRange(w: nat, k: nat, b: Byte, n: nat)
    requires k < n && w < Pow256(n)
    ensures WithByte(w, k, b) < Pow256(n)
  {
    assert Pow256(n) == 256 * Pow256(n - 1);
    hide Pow256;
    if k > 0 { WithByteRange(w / 256, k - 1, b, n - 1); }
  }

  function Pow256(n: nat): nat {
    if n == 0 then 1 else 256 * Pow256(n - 1)
  }

  // ---------------------------------------------------------------------
  // Bytes in memory
  // ---------------------------------------------------------------------

  function ByteAt(ram: Ram, a: Word): Byte {
    WordByte(ram[a / PAGE_SIZE][a % PAGE_SIZE / 4], a % 4)
  }

  /** Words are little-endian. */
  lemma LittleEndian(ram: Ram, frame: nat, index: nat)
    requires frame < FRAMES && index < PAGE_WORDS
    ensures var a := frame * PAGE_SIZE + 4 * index;
      ram[frame][index] ==
        ByteAt(ram, a) + 0x100 * ByteAt(ram, a + 1) + 0x1_0000 * ByteAt(ram, a + 2) + 0x100_0000 * ByteAt(ram, a + 3)
  {
    hide ByteAt, WordByte;
    ByteOfWord(ram, frame, index, 0);
    ByteOfWord(ram, frame, index, 1);
    ByteOfWord(ram, frame, index, 2);
    ByteOfWord(ram, frame, index, 3);
    FourBytes(ram[frame][index]);
  }

  lemma ByteOfWord(ram: Ram, frame: nat, index: nat, k: nat)
    requires frame < FRAMES && index < PAGE_WORDS && k < 4
    ensures ByteAt(ram, frame * PAGE_SIZE + 4 * index + k) == WordByte(ram[frame][index], k)
  {
    hide WordByte;
    InPage(frame, 4 * index + k);
    InWord(index, k);
    InWord(1024 * frame + index, k);
    assert frame * PAGE_SIZE + 4 * index + k == 4 * (1024 * frame + index) + k;
  }

  lemma InPage(frame: nat, r: nat)
    requires r < PAGE_SIZE
    ensures (frame * PAGE_SIZE + r) / PAGE_SIZE == frame && (frame * PAGE_SIZE + r) % PAGE_SIZE == r
  {
  }

  lemma InWord(index: nat, k: nat)
    requires k < 4
    ensures (4 * index + k) / 4 == index && (4 * index + k) % 4 == k
  {
  }

  lemma FourBytes(w: Word)
    ensures w == WordByte(w, 0) + 0x100 * WordByte(w, 1) + 0x1_0000 * WordByte(w, 2) + 0x100_0000 * WordByte(w, 3)
  {
    assert WordByte(w, 1) == w / 256 % 256;
    assert WordByte(w, 2) == WordByte(w / 256, 1) == w / 256 / 256 % 256;
    assert WordByte(w, 3) == WordByte(w / 256, 2) == WordByte(w / 256 / 256, 1) == w / 256 / 256 / 256 % 256;
  }

  function SetByte(ram: Ram, a: Word, b: Byte): Ram {
    var frame, index := a / PAGE_SIZE, a % PAGE_SIZE / 4;
    WithByteRange(ram[frame][index], a % 4, b, 4);
    WithWord(ram, frame, index, WithByte(ram[frame][index], a % 4, b))
  }

  lemma SamePlace(a: Word, x: Word)
    requires a / PAGE_SIZE == x / PAGE_SIZE && a % PAGE_SIZE / 4 == x % PAGE_SIZE / 4 && a % 4 == x % 4
    ensures a == x
  {
    assert a % PAGE_SIZE % 4 == a % 4 && x % PAGE_SIZE % 4 == x % 4;
  }

  /** Writing one byte changes that byte, no other byte, and no other page. */
  lemma SetByteAt(ram: Ram, a: Word, b: Byte, x: Word)
    ensures ByteAt(SetByte(ram, a, b), x) == if x == a then b else ByteAt(ram, x)
  {
    hide WithByte, WordByte;
    var w := ram[a / PAGE_SIZE][a % PAGE_SIZE / 4];
    WithByteRange(w, a % 4, b, 4);
    if a / PAGE_SIZE == x / PAGE_SIZE && a % PAGE_SIZE / 4 == x % PAGE_SIZE / 4 {
      WithByteIs(w, a % 4, b, x % 4);
      if a % 4 == x % 4 { SamePlace(a, x); }
    }
  }

  lemma SetByteFrame(ram: Ram, a: Word, b: Byte, f: nat)
    requires f < FRAMES && f != a / PAGE_SIZE
    ensures SetByte(ram, a, b)[f] == ram[f]
  {
  }
}
