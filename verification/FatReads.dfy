/**
 Several calls of fat16_read through one descriptor, with and without a seek
 between them.
 */
module FatReads {
  import opened Bits
  import opened Memory
  import opened Streamer
  import opened Fat16

  // ---------------------------------------------------------------------
  // Sequences of calls
  // ---------------------------------------------------------------------

  /** The bytes of two calls, one after the other, or the first failure. */
  function Both(first: Outcome, second: Outcome): Outcome {
    if first.Failed? then first else Then(first.bytes, second)
  }

  /** Two calls of fat16_read: the second starts where the first did. */
  function ReadTwice(v: Volume, cluster: nat, pos: nat, size: nat, nmemb: nat): Outcome
    requires v.Valid()
  {
    Both(ReadItems(v, cluster, pos, size, nmemb), ReadItems(v, cluster, pos, size, nmemb))
  }

  /** Two calls with a fat16_seek by what was read between them. */
  function ReadSeekRead(v: Volume, cluster: nat, filesize: Word, pos: Word, size: nat, nmemb: nat): Outcome
    requires v.Valid() && nmemb * size < WORD_LIMIT
  {
    var next := Seeked(true, filesize, pos, nmemb * size, SeekCurrent).0;
    Both(ReadItems(v, cluster, pos, size, nmemb), ReadItems(v, cluster, next, size, nmemb))
  }

  /** The calls these functions stand for. */
  method TwoCalls(r: Reader, desc: FileDescriptor, size: nat, nmemb: nat, seek: bool, a: array<Byte>, b: array<Byte>)
      returns (x: int, y: int)
    requires r.Valid() && desc.isFile && a != b && a.Length == b.Length == nmemb * size < WORD_LIMIT
    modifies r.stream, desc, a, b
    ensures var pos := old(desc.pos);
      var all := if seek then ReadSeekRead(r.v, desc.firstCluster, desc.filesize, pos, size, nmemb)
                 else ReadTwice(r.v, desc.firstCluster, pos, size, nmemb);
      if x < 0 then all == Failed(x)
      else if y < 0 then all == Failed(y)
      else x == y == nmemb && all == Data(a[..] + b[..])
  {
    hide ReadItems;
    FailureIsNegative(r.v, desc.firstCluster, desc.pos, size, nmemb);
    x := r.Read(desc, size, nmemb, a);
    y := 0;
    if x < 0 {
      return;
    }
    ghost var first := a[..];
    if seek {
      var _ := desc.Seek(nmemb * size, SeekCurrent);
    }
    FailureIsNegative(r.v, desc.firstCluster, desc.pos, size, nmemb);
    y := r.Read(desc, size, nmemb, b);
  }

  lemma FailureIsNegative(v: Volume, cluster: nat, pos: nat, size: nat, nmemb: nat)
    requires v.Valid()
    ensures var r := ReadItems(v, cluster, pos, size, nmemb); r.Failed? ==> r.code < 0
    decreases nmemb
  {
    hide Volume.ClusterSize, ReadPieces;
    if nmemb > 0 {
      FailureCode(v, v.ClusterSize(), cluster, pos, size);
      FailureIsNegative(v, cluster, pos + size, size, nmemb - 1);
    }
  }

  // ---------------------------------------------------------------------
  // With a seek
  // ---------------------------------------------------------------------

  /** Reading m items and then n more is reading m + n. */
  lemma {:induction false} ItemsAppend(v: Volume, cluster: nat, pos: nat, size: nat, m: nat, n: nat)
    requires v.Valid()
    ensures Both(ReadItems(v, cluster, pos, size, m), ReadItems(v, cluster, pos + m * size, size, n))
      == ReadItems(v, cluster, pos, size, m + n)
    decreases m
  {
    hide ReadFrom;
    var rest := ReadItems(v, cluster, pos + m * size, size, n);
    if m == 0 {
      Prepend(rest);
    } else {
      assert pos + size + (m - 1) * size == pos + m * size;
      ItemsAppend(v, cluster, pos + size, size, m - 1, n);
      var first, middle := ReadFrom(v, cluster, pos, size), ReadItems(v, cluster, pos + size, size, m - 1);
      if first.Data? && middle.Data? && rest.Data? {
        assert first.bytes + (middle.bytes + rest.bytes) == (first.bytes + middle.bytes) + rest.bytes;
      }
    }
  }

  /** If the items fit, read, seek by what was read, read again is one slice of twice the length. */
  lemma SeekBetween(v: Volume, cluster: nat, filesize: Word, pos: Word, size: nat, nmemb: nat)
    requires v.Valid() && nmemb >= 1 && nmemb * size < filesize && pos + nmemb * size < WORD_LIMIT
    requires forall i: nat :: i < 2 * nmemb ==> ItemFits(v.ClusterSize(), pos, size, i)
    ensures ReadSeekRead(v, cluster, filesize, pos, size, nmemb) == ChainSlice(v, cluster, pos, 2 * (nmemb * size))
  {
    hide ReadItems, ChainSlice, ItemFits, Volume.ClusterSize;
    ItemsAppend(v, cluster, pos, size, nmemb, nmemb);
    ItemsAreOneSlice(v, cluster, pos, size, 2 * nmemb);
    assert 2 * nmemb * size == 2 * (nmemb * size);
  }

  // ---------------------------------------------------------------------
  // Fitting is necessary
  // ---------------------------------------------------------------------

  /** The piece is found in the whole at position `at`. */
  predicate IsPiece(whole: Outcome, at: nat, piece: Outcome) {
    && whole.Data? && piece.Data? && at + |piece.bytes| <= |whole.bytes|
    && piece.bytes == whole.bytes[at..at + |piece.bytes|]
  }

  /** The i-th item's bytes among those of all items. */
  lemma ItemAt(v: Volume, cluster: nat, pos: nat, size: nat, nmemb: nat, i: nat)
    requires v.Valid() && i < nmemb && ReadItems(v, cluster, pos, size, nmemb).Data?
    ensures IsPiece(ReadItems(v, cluster, pos, size, nmemb), i * size, ReadFrom(v, cluster, pos + i * size, size))
  {
    hide ReadFrom;
    ItemsAppend(v, cluster, pos, size, i, nmemb - i);
    ItemsLength(v, cluster, pos, size, i);
  }

  /** A piece of a slice of a chain is a slice. */
  lemma ChainPiece(v: Volume, cluster: nat, pos: nat, a: nat, b: nat, total: nat)
    requires v.Valid() && b > 0 && a + b <= total && ChainSlice(v, cluster, pos, total).Data?
    ensures IsPiece(ChainSlice(v, cluster, pos, total), a, ChainSlice(v, cluster, pos + a, b))
  {
    hide ChainSlice;
    if a > 0 { ChainSliceAppend(v, cluster, pos, a, total - a); }
    if a + b < total { ChainSliceAppend(v, cluster, pos + a, b, total - a - b); }
  }

  /** If all items together are one slice, each of them is. */
  lemma EachIsSlice(v: Volume, cluster: nat, pos: nat, size: nat, nmemb: nat, i: nat)
    requires v.Valid() && i < nmemb && size > 0 && ChainSlice(v, cluster, pos, Start(nmemb, size)).Data?
    requires ReadItems(v, cluster, pos, size, nmemb) == ChainSlice(v, cluster, pos, Start(nmemb, size))
    ensures ReadFrom(v, cluster, pos + Start(i, size), size) == ChainSlice(v, cluster, pos + Start(i, size), size)
  {
    hide ReadItems, ReadFrom, ChainSlice;
    ItemAt(v, cluster, pos, size, nmemb, i);
    Multiples(i, nmemb, size);
    ChainPiece(v, cluster, pos, i * size, size, nmemb * size);
  }

  lemma GappedSlice(v: Volume, pos: nat, total: nat)
    requires v.Valid() && forall c :: v.fat(c) == 4
    ensures ChainSlice(v, 2, pos, total).Data?
  {
    hide Volume.ClusterSize, Contents;
    GappedChain(v, Needed(v.ClusterSize(), pos, total));
  }

  predicate HasGeometry(v: Volume, sectorsPerCluster: nat, endingSector: nat) {
    v.sectorsPerCluster == sectorsPerCluster && v.endingSector == endingSector
  }

  ghost predicate AllFit(clusterSize: nat, pos: nat, size: nat, nmemb: nat)
    requires clusterSize > 0
  {
    forall i: nat :: i < nmemb ==> ItemFits(clusterSize, pos, size, i)
  }

  /** On the gapped volume one item that does not fit is enough. */
  lemma MisfitShows(v: Volume, pos: nat, size: nat, nmemb: nat, i: nat)
    requires v.Valid() && v == Gapped(v.sectorsPerCluster, v.endingSector) && i < nmemb
    requires !ItemFits(v.ClusterSize(), pos, size, i)
    ensures ReadItems(v, 2, pos, size, nmemb) != ChainSlice(v, 2, pos, Start(nmemb, size))
  {
    EmptyFits(v.ClusterSize(), pos + Start(i, size));
    hide ReadItems, ReadFrom, ChainSlice, Volume.ClusterSize, Fits, Start;
    GapShows(v, pos + Start(i, size), size);
    GappedSlice(v, pos, Start(nmemb, size));
    if ReadItems(v, 2, pos, size, nmemb) == ChainSlice(v, 2, pos, Start(nmemb, size)) {
      EachIsSlice(v, 2, pos, size, nmemb, i);
    }
  }

  lemma EmptyFits(clusterSize: nat, pos: nat)
    requires clusterSize > 0
    ensures Fits(clusterSize, pos, 0)
  {
  }

  /** On all volumes of a geometry nmemb items are one slice of the chain if and only if every item fits. */
  lemma ItemsFitIff(sectorsPerCluster: nat, endingSector: nat, pos: nat, size: nat, nmemb: nat)
    requires sectorsPerCluster >= 1 && endingSector >= 2 * sectorsPerCluster && nmemb >= 1
    ensures AllFit(sectorsPerCluster * SECTOR_SIZE, pos, size, nmemb) <==>
      forall v: Volume, cluster: nat :: HasGeometry(v, sectorsPerCluster, endingSector) ==>
        ReadItems(v, cluster, pos, size, nmemb) == ChainSlice(v, cluster, pos, nmemb * size)
  {
    hide ReadItems, ChainSlice, ItemFits;
    var gapped := Gapped(sectorsPerCluster, endingSector);
    assert gapped.ClusterSize() == sectorsPerCluster * SECTOR_SIZE;
    if AllFit(sectorsPerCluster * SECTOR_SIZE, pos, size, nmemb) {
      forall v: Volume, cluster: nat | HasGeometry(v, sectorsPerCluster, endingSector)
        ensures ReadItems(v, cluster, pos, size, nmemb) == ChainSlice(v, cluster, pos, nmemb * size)
      {
        ItemsAreOneSlice(v, cluster, pos, size, nmemb);
      }
    } else {
      var i: nat :| i < nmemb && !ItemFits(sectorsPerCluster * SECTOR_SIZE, pos, size, i);
      MisfitShows(gapped, pos, size, nmemb, i);
    }
  }

  /** So is the condition for two calls with a seek between them. */
  lemma SeekBetweenIff(
      sectorsPerCluster: nat, endingSector: nat, filesize: Word, pos: Word, size: nat, nmemb: nat)
    requires sectorsPerCluster >= 1 && endingSector >= 2 * sectorsPerCluster && nmemb >= 1
    requires nmemb * size < filesize && pos + nmemb * size < WORD_LIMIT
    ensures AllFit(sectorsPerCluster * SECTOR_SIZE, pos, size, 2 * nmemb) <==>
      forall v: Volume, cluster: nat :: HasGeometry(v, sectorsPerCluster, endingSector) ==>
        ReadSeekRead(v, cluster, filesize, pos, size, nmemb) == ChainSlice(v, cluster, pos, 2 * (nmemb * size))
  {
    hide ReadItems, ChainSlice, AllFit;
    ItemsFitIff(sectorsPerCluster, endingSector, pos, size, 2 * nmemb);
    assert 2 * nmemb * size == 2 * (nmemb * size);
    forall v: Volume, cluster: nat | HasGeometry(v, sectorsPerCluster, endingSector)
      ensures ReadSeekRead(v, cluster, filesize, pos, size, nmemb) == ReadItems(v, cluster, pos, size, 2 * nmemb)
    {
      ItemsAppend(v, cluster, pos, size, nmemb, nmemb);
    }
  }

  // ---------------------------------------------------------------------
  // Without one
  // ---------------------------------------------------------------------

  const FIRST := 5000

  function NextInCycle(p: nat, c: nat): FatEntry
    requires p < 4000
  {
    if FIRST <= c && c + 1 < FIRST + p then c + 1 else FIRST
  }

  function AllButOne(zero: nat, s: nat): Sector {
    seq<Byte>(SECTOR_SIZE, i requires 0 <= i < SECTOR_SIZE => if s * SECTOR_SIZE + i == zero then 0 else 1)
  }

  /** A volume whose chain from FIRST goes round p clusters, with a zero at one position and ones elsewhere. */
  function Cyclic(sectorsPerCluster: nat, endingSector: nat, p: nat, zero: nat): Volume
    requires p < 4000
  {
    Volume(s => AllButOne(zero, s), c => NextInCycle(p, c), sectorsPerCluster, endingSector)
  }

  ghost predicate GoesRound(v: Volume, p: nat) {
    0 < p < 4000 && forall c: nat :: v.fat(c) == NextInCycle(p, c)
  }

  lemma TurnMore(x: nat, p: nat)
    requires p > 0
    ensures (x + p) % p == x % p
  {
    var q := x / p;
    assert x == q * p + x % p;
    assert x + p == (q + 1) * p + x % p;
    DivIs(x + p, q + 1, p);
  }

  lemma {:induction false} CycleWalk(v: Volume, p: nat, i: nat, n: nat)
    requires GoesRound(v, p) && i < p
    ensures Walk(v, FIRST + i, n) == FIRST + (i + n) % p
    decreases n
  {
    if n == 0 {
      assert i == 0 * p + i;
      DivIs(i, 0, p);
    } else {
      var next := if i + 1 < p then i + 1 else 0;
      assert v.fat(FIRST + i) == NextInCycle(p, FIRST + i) == FIRST + next;
      CycleWalk(v, p, next, n - 1);
      if i + 1 == p { TurnMore(n - 1, p); }
    }
  }

  lemma AllButOneByte(zero: nat, x: nat)
    ensures AllButOne(zero, x / SECTOR_SIZE)[x % SECTOR_SIZE] == if x == zero then 0 else 1
  {
  }

  /** The cluster of the cycle that byte `at` of the chain lies in. */
  function CycleCluster(v: Volume, p: nat, at: nat): nat
    requires v.Valid() && p > 0
  {
    FIRST + Index(at, v.ClusterSize()) % p
  }

  /** The place of byte `at` of a chain on the disk, given its cluster. */
  function DiskPos(v: Volume, c: nat, at: nat): nat
    requires v.Valid()
  {
    v.ClusterPos(c) + at % v.ClusterSize()
  }

  predicate HasByte(o: Outcome, i: nat, b: Byte) {
    o.Data? && i < |o.bytes| && o.bytes[i] == b
  }

  /** Byte i of a slice of a chain that never ends. */
  lemma CycleByte(v: Volume, p: nat, offset: nat, total: nat, i: nat)
    requires v.Valid() && GoesRound(v, p) && i < total
    ensures HasByte(ChainSlice(v, FIRST, offset, total), i,
                    DiskByte(v.disk, DiskPos(v, CycleCluster(v, p, offset + i), offset + i)))
  {
    hide Volume.ClusterSize, Volume.ClusterPos, Contents, HasClusters, DiskByte, Walk;
    var size, at := v.ClusterSize(), offset + i;
    var n, k := Needed(size, offset, total), at / size;
    CycleWalk(v, p, 0, n - 1);
    CycleWalk(v, p, 0, k);
    WalkSucceedsIff(v, FIRST, n - 1);
    MoreIsNeeded(size, at, offset + total - 1);
    ReachesEnd(v, FIRST, offset, total);
    PieceOfContents(v, FIRST, n, k, at % size, 1, at);
    assert Contents(v, FIRST, n)[at] == Contents(v, FIRST, n)[at..at + 1][0];
  }

  lemma UniqueSplit(size: nat, c: nat, d: nat, r: nat, q: nat)
    requires r < size && q < size && c * size + r == d * size + q
    ensures c == d && r == q
  {
    DivIs(c * size + r, c, size);
    DivIs(c * size + r, d, size);
  }

  lemma PlaceOf(v: Volume, c: nat)
    requires v.Valid()
    ensures v.ClusterPos(c) + 2 * v.ClusterSize() == v.endingSector * SECTOR_SIZE + c * v.ClusterSize()
  {
    assert (c - 2) * v.sectorsPerCluster == c * v.sectorsPerCluster - 2 * v.sectorsPerCluster;
    assert c * v.sectorsPerCluster * SECTOR_SIZE == c * (v.sectorsPerCluster * SECTOR_SIZE);
  }

  /** Each byte of each cluster has a place of its own. */
  lemma OwnPlace(v: Volume, c: nat, d: nat, x: nat, y: nat)
    requires v.Valid() && DiskPos(v, c, x) == DiskPos(v, d, y)
    ensures c == d && x % v.ClusterSize() == y % v.ClusterSize()
  {
    hide Volume.ClusterPos, Volume.ClusterSize;
    PlaceOf(v, c);
    PlaceOf(v, d);
    UniqueSplit(v.ClusterSize(), c, d, x % v.ClusterSize(), y % v.ClusterSize());
  }

  /** A distance below 3000 * 3001 is no multiple of one of the two. */
  lemma OneOfTwo(j: nat)
    requires 0 < j < 9_003_000
    ensures j % 3000 != 0 || j % 3001 != 0
  {
    var a, b := j / 3000, j / 3001;
    assert 3000 * a == 3001 * b ==> a == 3001 * (a - b);
  }

  lemma SameRemainder(x: nat, j: nat, p: nat)
    requires p > 0 && x % p == (x + j) % p
    ensures j % p == 0
  {
    var a, b := x / p, (x + j) / p;
    assert x == a * p + x % p && x + j == b * p + x % p;
    assert j == (b - a) * p;
    Positive(b - a + 1, p);
    DivIs(j, b - a, p);
  }

  lemma Positive(k: int, n: nat)
    requires k * n > 0
    ensures k > 0
  {
  }

  lemma {:induction false} ItemsLength(v: Volume, cluster: nat, pos: nat, size: nat, nmemb: nat)
    requires v.Valid()
    ensures var r := ReadItems(v, cluster, pos, size, nmemb); r.Data? ==> |r.bytes| == nmemb * size
    decreases nmemb
  {
    hide ReadFrom;
    if nmemb > 0 {
      ItemsLength(v, cluster, pos + size, size, nmemb - 1);
      ItemEnd(nmemb - 1, size);
    }
  }

  /** The first byte read is the one at the starting position. */
  lemma FirstByte(v: Volume, cluster: nat, pos: nat, size: nat, nmemb: nat, c: nat)
    requires v.Valid() && nmemb * size > 0 && c == Walk(v, cluster, Index(pos, v.ClusterSize()))
    ensures var r := ReadItems(v, cluster, pos, size, nmemb);
      r.Data? ==> HasByte(r, 0, DiskByte(v.disk, DiskPos(v, c, pos)))
  {
    hide Volume.ClusterSize, Volume.ClusterPos, ReadPieces, DiskByte, Walk;
    Positive(nmemb, size);
    Positive(size, nmemb);
    FirstBytes(v, v.ClusterSize(), cluster, pos, size, 0, c);
  }

  /** So reading twice gives it twice. */
  lemma FirstByteTwice(v: Volume, cluster: nat, pos: nat, size: nat, nmemb: nat, c: nat)
    requires v.Valid() && nmemb * size > 0 && c == Walk(v, cluster, Index(pos, v.ClusterSize()))
    ensures var r, b := ReadTwice(v, cluster, pos, size, nmemb), DiskByte(v.disk, DiskPos(v, c, pos));
      r.Data? ==> HasByte(r, 0, b) && HasByte(r, nmemb * size, b)
  {
    hide ReadItems, Walk, DiskPos, DiskByte, Volume.ClusterSize;
    ItemsLength(v, cluster, pos, size, nmemb);
    FirstByte(v, cluster, pos, size, nmemb, c);
  }

  /** Two clusters of the cycle, or two places in a cluster, for byte pos and byte pos + length of the chain. */
  lemma ApartInCycle(size: nat, pos: nat, length: nat) returns (p: nat)
    requires size >= SECTOR_SIZE && 0 < length < WORD_LIMIT
    ensures 0 < p < 4000
    ensures pos % size != (pos + length) % size || Index(pos, size) % p != Index(pos + length, size) % p
  {
    var x, y := pos / size, (pos + length) / size;
    p := 3000;
    if pos % size == (pos + length) % size {
      assert pos == x * size + pos % size && pos + length == y * size + pos % size;
      assert (y - x) * size == length;
      Positive(y - x, size);
      var j: nat := y - x;
      AtLeast(j, SECTOR_SIZE, size);
      OneOfTwo(j);
      p := if j % 3000 != 0 then 3000 else 3001;
      if x % p == y % p { SameRemainder(x, j, p); }
    }
  }

  lemma AtLeast(j: nat, m: nat, n: nat)
    requires m <= n
    ensures j * m <= j * n
  {
  }

  /** A volume on which reading twice gives the same byte at two places where the chain has different ones. */
  lemma RepeatShows(v: Volume, p: nat, pos: nat, size: nat, nmemb: nat)
    requires v.Valid() && 0 < p < 4000 && 0 < nmemb * size
    requires var x, y := pos, pos + nmemb * size;
      && v == Cyclic(v.sectorsPerCluster, v.endingSector, p, DiskPos(v, CycleCluster(v, p, y), y))
      && (x % v.ClusterSize() != y % v.ClusterSize() || CycleCluster(v, p, x) != CycleCluster(v, p, y))
    ensures var slice := ChainSlice(v, FIRST, pos, 2 * (nmemb * size));
      slice.Data? && ReadTwice(v, FIRST, pos, size, nmemb) != slice
  {
    assert GoesRound(v, p);
    hide Volume.ClusterPos, Volume.ClusterSize, ChainSlice, ReadTwice, DiskByte, DiskPos, Walk, Cyclic, GoesRound;
    var length, end := nmemb * size, pos + nmemb * size;
    CycleByte(v, p, pos, 2 * length, 0);
    CycleByte(v, p, pos, 2 * length, length);
    CycleWalk(v, p, 0, Index(pos, v.ClusterSize()));
    FirstByteTwice(v, FIRST, pos, size, nmemb, CycleCluster(v, p, pos));
    Differ(v, p, CycleCluster(v, p, pos), pos, CycleCluster(v, p, end), end);
  }

  lemma RepeatVolume(sectorsPerCluster: nat, endingSector: nat, pos: nat, size: nat, nmemb: nat) returns (v: Volume)
    requires sectorsPerCluster >= 1 && endingSector >= 2 * sectorsPerCluster && 0 < nmemb * size < WORD_LIMIT
    ensures v.sectorsPerCluster == sectorsPerCluster && v.endingSector == endingSector
    ensures var slice := ChainSlice(v, FIRST, pos, 2 * (nmemb * size));
      slice.Data? && ReadTwice(v, FIRST, pos, size, nmemb) != slice
  {
    hide ChainSlice, ReadTwice, Index;
    var end := pos + nmemb * size;
    var p := ApartInCycle(sectorsPerCluster * SECTOR_SIZE, pos, nmemb * size);
    var blank := Cyclic(sectorsPerCluster, endingSector, p, 0);
    v := Cyclic(sectorsPerCluster, endingSector, p, DiskPos(blank, CycleCluster(blank, p, end), end));
    SamePlaces(blank, v, p, end);
    RepeatShows(v, p, pos, size, nmemb);
  }

  lemma SamePlaces(v: Volume, w: Volume, p: nat, at: nat)
    requires v.Valid() && p > 0
    requires w.sectorsPerCluster == v.sectorsPerCluster && w.endingSector == v.endingSector
    ensures DiskPos(w, CycleCluster(w, p, at), at) == DiskPos(v, CycleCluster(v, p, at), at)
  {
  }

  lemma Differ(v: Volume, p: nat, c: nat, x: nat, d: nat, y: nat)
    requires v.Valid() && p < 4000 && (c != d || x % v.ClusterSize() != y % v.ClusterSize())
    requires v == Cyclic(v.sectorsPerCluster, v.endingSector, p, DiskPos(v, d, y))
    ensures DiskByte(v.disk, DiskPos(v, c, x)) == 1 && DiskByte(v.disk, DiskPos(v, d, y)) == 0
  {
    hide DiskPos, Volume.ClusterSize;
    if DiskPos(v, c, x) == DiskPos(v, d, y) { OwnPlace(v, c, d, x, y); }
    AllButOneByte(DiskPos(v, d, y), DiskPos(v, c, x));
    AllButOneByte(DiskPos(v, d, y), DiskPos(v, d, y));
  }

  lemma {:induction false} ReadNothing(v: Volume, cluster: nat, pos: nat, size: nat, nmemb: nat)
    requires v.Valid() && nmemb * size == 0 && ChainSlice(v, cluster, pos, 0).Data?
    ensures ReadItems(v, cluster, pos, size, nmemb) == Data([])
    decreases nmemb
  {
    hide Volume.ClusterSize, Volume.ClusterPos;
    if nmemb > 0 {
      assert size == 0;
      WalkSucceedsIff(v, cluster, pos / v.ClusterSize());
      ReadNothing(v, cluster, pos, size, nmemb - 1);
    }
  }

  /**
   fat16_read leaves the position alone, so a second call repeats the first: on all
   volumes of a geometry the two give one slice of twice the length, where the
   chain has it, if and only if nothing is read at all.
   */
  lemma ReadTwiceIff(sectorsPerCluster: nat, endingSector: nat, pos: nat, size: nat, nmemb: nat)
    requires sectorsPerCluster >= 1 && endingSector >= 2 * sectorsPerCluster && nmemb * size < WORD_LIMIT
    ensures nmemb * size == 0 <==>
      forall v: Volume, cluster: nat ::
        v.sectorsPerCluster == sectorsPerCluster && v.endingSector == endingSector
          && ChainSlice(v, cluster, pos, 2 * (nmemb * size)).Data? ==>
        ReadTwice(v, cluster, pos, size, nmemb) == ChainSlice(v, cluster, pos, 2 * (nmemb * size))
  {
    hide ReadItems, ChainSlice;
    if nmemb * size == 0 {
      forall v: Volume, cluster: nat
        | v.sectorsPerCluster == sectorsPerCluster && v.endingSector == endingSector
            && ChainSlice(v, cluster, pos, 0).Data?
        ensures ReadTwice(v, cluster, pos, size, nmemb) == ChainSlice(v, cluster, pos, 0)
      {
        ReadNothing(v, cluster, pos, size, nmemb);
      }
    } else {
      var _ := RepeatVolume(sectorsPerCluster, endingSector, pos, size, nmemb);
    }
  }
}
