/**
 fat16.c: reading a file through its cluster chain.

 The file allocation table is an arbitrary function from clusters to 16-bit
 entries; everything here holds for any such function.
 */
module Fat16 {
  import opened StatusCodes
  import opened Bits
  import opened Memory
  import opened Streamer

  type FatEntry = x: int | 0 <= x < 0x1_0000

  /** The disk, its FAT, the cluster size and the sector after the root directory. */
  datatype Volume = Volume(disk: Disk, fat: nat -> FatEntry, sectorsPerCluster: nat, endingSector: nat) {
    /** Clusters 0 and up lie at non-negative positions. */
    predicate Valid() {
      sectorsPerCluster >= 1 && endingSector >= 2 * sectorsPerCluster
    }

    function ClusterSize(): (n: nat)
      requires Valid()
      ensures n >= SECTOR_SIZE
    {
      sectorsPerCluster * SECTOR_SIZE
    }

    /** fat16_cluster_to_sector. */
    function ClusterToSector(cluster: nat): nat
      requires Valid()
    {
      SectorIsNat(cluster);
      endingSector + (cluster - 2) * sectorsPerCluster
    }

    lemma SectorIsNat(cluster: nat)
      requires Valid()
      ensures endingSector + (cluster - 2) * sectorsPerCluster >= 0
    {
      assert (cluster - 2) * sectorsPerCluster == cluster * sectorsPerCluster - 2 * sectorsPerCluster;
    }

    function ClusterPos(cluster: nat): nat
      requires Valid()
    {
      ClusterToSector(cluster) * SECTOR_SIZE
    }
  }

  // ---------------------------------------------------------------------
  // Walking the chain
  // ---------------------------------------------------------------------

  /** Entries on which fat16_get_cluster_for_offset gives up. */
  predicate Stops(entry: FatEntry) {
    entry in {0xff8, 0xfff, 0xff7, 0xff0, 0xff6, 0x00}
  }

  /** The n-th cluster after `cluster`, or -EIO. */
  function Walk(v: Volume, cluster: nat, n: nat): int
    decreases n
  {
    if n == 0 then cluster
    else if Stops(v.fat(cluster)) then -EIO
    else Walk(v, v.fat(cluster), n - 1)
  }

  /** Re-walking from the head agrees with walking on from where one stopped. */
  lemma {:induction false} WalkOn(v: Volume, cluster: nat, m: nat, n: nat)
    ensures Walk(v, cluster, m + n) == if Walk(v, cluster, m) < 0 then -EIO else Walk(v, Walk(v, cluster, m), n)
    decreases m
  {
    if m > 0 && !Stops(v.fat(cluster)) { WalkOn(v, v.fat(cluster), m - 1, n); }
  }

  // ---------------------------------------------------------------------
  // The contents of a chain
  // ---------------------------------------------------------------------

  /** The chain has at least n clusters. */
  predicate HasClusters(v: Volume, cluster: nat, n: nat)
    decreases n
  {
    n <= 1 || (!Stops(v.fat(cluster)) && HasClusters(v, v.fat(cluster), n - 1))
  }

  /** The first n clusters of the chain, concatenated in one forward walk. */
  function Contents(v: Volume, cluster: nat, n: nat): (s: seq<Byte>)
    requires v.Valid() && HasClusters(v, cluster, n)
    decreases n
  {
    if n == 0 then []
    else
      Slice(v.disk, v.ClusterPos(cluster), v.ClusterSize())
      + if n == 1 then [] else Contents(v, v.fat(cluster), n - 1)
  }

  lemma {:induction false} ContentsLength(v: Volume, cluster: nat, n: nat)
    requires v.Valid() && HasClusters(v, cluster, n)
    ensures |Contents(v, cluster, n)| == n * v.ClusterSize()
    decreases n
  {
    if n > 1 {
      ContentsLength(v, v.fat(cluster), n - 1);
    }
    assert n >= 1 ==> n * v.ClusterSize() == v.ClusterSize() + (n - 1) * v.ClusterSize();
  }

  /** The chain is long enough for n clusters exactly when the walk to the last of them succeeds. */
  lemma {:induction false} WalkSucceedsIff(v: Volume, cluster: nat, n: nat)
    ensures Walk(v, cluster, n) >= 0 <==> HasClusters(v, cluster, n + 1)
    decreases n
  {
    if n > 0 && !Stops(v.fat(cluster)) { WalkSucceedsIff(v, v.fat(cluster), n - 1); }
  }

  lemma {:induction false} Shorter(v: Volume, cluster: nat, m: nat, n: nat)
    requires m <= n && HasClusters(v, cluster, n)
    ensures HasClusters(v, cluster, m)
    decreases m
  {
    if m > 1 { Shorter(v, v.fat(cluster), m - 1, n - 1); }
  }

  /** Where the k-th of pieces of one size begins: a cluster of the contents, an item of a read. */
  function Start(k: nat, size: nat): nat {
    k * size
  }

  lemma StartOfNext(k: nat, size: nat)
    ensures Start(0, size) == 0 && Start(k + 1, size) == Start(k, size) + size
  {
  }

  /** A piece of cluster k of the contents is a piece of the disk at the cluster the walk finds. */
  lemma {:induction false} PieceOfContents(v: Volume, cluster: nat, n: nat, k: nat, from: nat, len: nat, at: nat)
    requires v.Valid() && HasClusters(v, cluster, n) && k < n && from + len <= v.ClusterSize()
    requires at == Start(k, v.ClusterSize()) + from
    ensures Walk(v, cluster, k) >= 0 && at + len <= |Contents(v, cluster, n)|
    ensures Contents(v, cluster, n)[at..at + len] == Slice(v.disk, v.ClusterPos(Walk(v, cluster, k)) + from, len)
    decreases n
  {
    ContentsStart(v, cluster, n, k);
    hide Volume.ClusterSize, Volume.ClusterPos, Slice, Contents, Start, Walk, HasClusters;
    var size := v.ClusterSize();
    var first := Slice(v.disk, v.ClusterPos(cluster), size);
    StartOfNext(if k > 0 then k - 1 else 0, size);
    if k == 0 {
      SliceOfSlice(v.disk, v.ClusterPos(cluster), size, from, len);
      PieceOfFirst(first, Contents(v, cluster, n), from, len);
    } else {
      PieceOfContents(v, v.fat(cluster), n - 1, k - 1, from, len, at - size);
      PieceOfRest(first, Contents(v, v.fat(cluster), n - 1), Contents(v, cluster, n), at, len);
    }
  }

  /** The first cluster of the contents, the rest, and the first step of the walk. */
  lemma ContentsStart(v: Volume, cluster: nat, n: nat, k: nat)
    requires v.Valid() && HasClusters(v, cluster, n) && k < n
    ensures Slice(v.disk, v.ClusterPos(cluster), v.ClusterSize()) <= Contents(v, cluster, n)
    ensures Walk(v, cluster, 0) == cluster
    ensures n >= 2 ==>
      && HasClusters(v, v.fat(cluster), n - 1)
      && Contents(v, cluster, n)
        == Slice(v.disk, v.ClusterPos(cluster), v.ClusterSize()) + Contents(v, v.fat(cluster), n - 1)
      && (k > 0 ==> Walk(v, cluster, k) == Walk(v, v.fat(cluster), k - 1))
  {
    hide Volume.ClusterSize, Volume.ClusterPos, Slice;
  }

  lemma PieceOfFirst(first: seq<Byte>, all: seq<Byte>, from: nat, len: nat)
    requires first <= all && from + len <= |first|
    ensures all[from..from + len] == first[from..from + len]
  {
  }

  lemma PieceOfRest(first: seq<Byte>, rest: seq<Byte>, all: seq<Byte>, at: nat, len: nat)
    requires all == first + rest && |first| <= at && at - |first| + len <= |rest|
    ensures at + len <= |all| && all[at..at + len] == rest[at - |first|..at - |first| + len]
  {
  }

  lemma {:induction false} Multiples(k: nat, n: nat, size: nat)
    requires k < n
    ensures k * size + size <= n * size
  {
    ItemEnd(n - 1, size);
    if k + 1 < n { Multiples(k, n - 1, size); }
  }

  lemma SliceOfSlice(disk: Disk, pos: nat, n: nat, from: nat, len: nat)
    requires from + len <= n
    ensures Slice(disk, pos, n)[from..from + len] == Slice(disk, pos + from, len)
  {
    var a, b := Slice(disk, pos, n)[from..from + len], Slice(disk, pos + from, len);
    forall i | 0 <= i < len ensures a[i] == b[i] {
      assert a[i] == DiskByte(disk, pos + (from + i));
    }
  }

  // ---------------------------------------------------------------------
  // What the reader returns
  // ---------------------------------------------------------------------

  datatype Outcome = Data(bytes: seq<Byte>) | Failed(code: int)

  function Then(first: seq<Byte>, rest: Outcome): Outcome {
    if rest.Data? then Data(first + rest.bytes) else rest
  }

  /**
   fat16_read_internal_from_stream for every offset and total: each piece re-walks
   the chain from the head and takes up to a whole cluster's worth of bytes from
   the disk, whatever is left of the cluster it starts in.
   */
  function ReadFrom(v: Volume, cluster: nat, offset: nat, total: nat): (r: Outcome)
    requires v.Valid()
    ensures r.Data? ==> |r.bytes| == total
  {
    ReadPieces(v, v.ClusterSize(), cluster, offset, total)
  }

  /** The number of the cluster an offset lies in. */
  function Index(offset: nat, size: nat): nat
    requires size > 0
  {
    offset / size
  }

  function ReadPieces(v: Volume, size: nat, cluster: nat, offset: nat, total: nat): (r: Outcome)
    requires v.Valid() && size > 0
    ensures r.Data? ==> |r.bytes| == total
    decreases total
  {
    var c := Walk(v, cluster, Index(offset, size));
    if c < 0 then Failed(c)
    else
      var piece := if total > size then size else total;
      var data := Slice(v.disk, v.ClusterPos(c) + offset % size, piece);
      if total - piece > 0 then Then(data, ReadPieces(v, size, cluster, offset + piece, total - piece)) else Data(data)
  }

  /** The guard under which no piece runs past its cluster. */
  predicate Fits(size: nat, offset: nat, total: nat)
    requires size > 0
  {
    offset % size == 0 || offset % size + total <= size
  }

  /** How many clusters a read has to reach. */
  function Needed(size: nat, offset: nat, total: nat): (n: nat)
    requires size > 0
    ensures n >= 1
  {
    (if total == 0 then offset else offset + total - 1) / size + 1
  }

  /** Bytes offset .. offset+total of the concatenated chain, or failure if the chain is too short. */
  function ChainSlice(v: Volume, cluster: nat, offset: nat, total: nat): (r: Outcome)
    requires v.Valid()
    ensures r.Data? ==> |r.bytes| == total
  {
    var n := Needed(v.ClusterSize(), offset, total);
    if HasClusters(v, cluster, n) then
      ReachesEnd(v, cluster, offset, total);
      Data(Contents(v, cluster, n)[offset..offset + total])
    else
      Failed(-EIO)
  }

  lemma ReachesEnd(v: Volume, cluster: nat, offset: nat, total: nat)
    requires v.Valid() && HasClusters(v, cluster, Needed(v.ClusterSize(), offset, total))
    ensures offset + total <= |Contents(v, cluster, Needed(v.ClusterSize(), offset, total))|
  {
    hide Contents, HasClusters, Volume.ClusterSize;
    var size := v.ClusterSize();
    ContentsLength(v, cluster, Needed(size, offset, total));
    var last := if total == 0 then offset else offset + total - 1;
    assert last == last / size * size + last % size;
    assert Needed(size, offset, total) * size == last / size * size + size;
  }

  lemma {:induction false} WalkError(v: Volume, cluster: nat, n: nat)
    ensures Walk(v, cluster, n) < 0 ==> Walk(v, cluster, n) == -EIO
    decreases n
  {
    if n > 0 && !Stops(v.fat(cluster)) { WalkError(v, v.fat(cluster), n - 1); }
  }

  /** The one-piece case. */
  lemma OnePiece(v: Volume, cluster: nat, offset: nat, total: nat)
    requires v.Valid() && offset % v.ClusterSize() + total <= v.ClusterSize()
    ensures ReadFrom(v, cluster, offset, total) == ChainSlice(v, cluster, offset, total)
  {
    hide Volume.ClusterSize, Volume.ClusterPos, Slice, Contents;
    var size := v.ClusterSize();
    var k, from := offset / size, offset % size;
    WalkSucceedsIff(v, cluster, k);
    WalkError(v, cluster, k);
    assert Needed(size, offset, total) == k + 1 by { SameCluster(size, offset, total); }
    if HasClusters(v, cluster, k + 1) {
      PieceOfContents(v, cluster, k + 1, k, from, total, offset);
    }
  }

  lemma SameCluster(size: nat, offset: nat, total: nat)
    requires size > 0 && offset % size + total <= size
    ensures Needed(size, offset, total) == offset / size + 1
  {
    if total > 0 {
      var k := offset / size;
      assert offset == k * size + offset % size;
      DivIs(offset + total - 1, k, size);
    }
  }

  lemma DivIs(x: nat, k: nat, size: nat)
    requires size > 0 && k * size <= x < k * size + size
    ensures x / size == k
  {
    var q := x / size;
    assert x == q * size + x % size;
    Ordered(q, k, size);
    Ordered(k, q, size);
  }

  lemma Ordered(a: nat, b: nat, size: nat)
    ensures a < b ==> a * size + size <= b * size
  {
    if a < b { Multiples(a, b, size); }
  }

  /** A longer stretch of the chain starts with a shorter one. */
  lemma {:induction false} ContentsPrefix(v: Volume, cluster: nat, m: nat, n: nat)
    requires v.Valid() && m <= n && HasClusters(v, cluster, n)
    ensures HasClusters(v, cluster, m)
    ensures Contents(v, cluster, m) <= Contents(v, cluster, n)
    decreases m
  {
    hide Volume.ClusterSize, Volume.ClusterPos, Slice;
    Shorter(v, cluster, m, n);
    if m > 1 { ContentsPrefix(v, v.fat(cluster), m - 1, n - 1); }
  }

  /** Adjacent non-empty stretches of a chain join. */
  lemma ChainSliceAppend(v: Volume, cluster: nat, offset: nat, a: nat, b: nat)
    requires v.Valid() && a > 0 && b > 0
    ensures ChainSlice(v, cluster, offset, a + b).Data? ==> ChainSlice(v, cluster, offset, a).Data?
    ensures ChainSlice(v, cluster, offset, a + b).Data? <==> ChainSlice(v, cluster, offset + a, b).Data?
    ensures ChainSlice(v, cluster, offset, a + b).Data? ==>
      ChainSlice(v, cluster, offset, a + b)
        == Data(ChainSlice(v, cluster, offset, a).bytes + ChainSlice(v, cluster, offset + a, b).bytes)
  {
    hide Volume.ClusterSize, Contents, HasClusters;
    var size := v.ClusterSize();
    var m, n := Needed(size, offset, a), Needed(size, offset, a + b);
    assert m <= n by { MoreIsNeeded(size, offset + a - 1, offset + a + b - 1); }
    if HasClusters(v, cluster, n) {
      ContentsPrefix(v, cluster, m, n);
      ReachesEnd(v, cluster, offset, a);
      ReachesEnd(v, cluster, offset, a + b);
      var all := Contents(v, cluster, n);
      assert all[offset..offset + a] == Contents(v, cluster, m)[offset..offset + a];
      assert all[offset..offset + (a + b)] == all[offset..offset + a] + all[offset + a..offset + a + b];
    }
  }

  lemma MoreIsNeeded(size: nat, x: nat, y: nat)
    requires size > 0 && x <= y
    ensures x / size <= y / size
  {
    var p, q := x / size, y / size;
    assert x == p * size + x % size && y == q * size + y % size;
    Ordered(q, p, size);
  }

  /**
   The recursive reader refines the concatenated chain: if no piece runs past its
   cluster, it yields bytes offset .. offset+total of the chain, and fails exactly
   when the chain has too few clusters.
   */
  lemma {:induction false} ReadRefines(v: Volume, cluster: nat, offset: nat, total: nat)
    requires v.Valid() && Fits(v.ClusterSize(), offset, total)
    ensures ReadFrom(v, cluster, offset, total) == ChainSlice(v, cluster, offset, total)
    decreases total
  {
    hide Volume.ClusterSize, ChainSlice;
    var size := v.ClusterSize();
    if total <= size {
      OnePiece(v, cluster, offset, total);
    } else {
      assert (offset + size) % size == 0 by { NextCluster(offset, size); }
      OnePiece(v, cluster, offset, size);
      ReadRefines(v, cluster, offset + size, total - size);
      ChainSliceAppend(v, cluster, offset, size, total - size);
      ShortChain(v, cluster, offset, size);
      ShortChain(v, cluster, offset, total);
      ShortChain(v, cluster, offset + size, total - size);
      FirstPiece(v, cluster, offset, total);
    }
  }

  lemma NextCluster(offset: nat, size: nat)
    requires size > 0 && offset % size == 0
    ensures (offset + size) % size == 0
  {
    var k := offset / size;
    assert offset + size == (k + 1) * size + 0;
    DivIs(offset + size, k + 1, size);
  }

  lemma ShortChain(v: Volume, cluster: nat, offset: nat, total: nat)
    requires v.Valid()
    ensures ChainSlice(v, cluster, offset, total).Failed? ==> ChainSlice(v, cluster, offset, total) == Failed(-EIO)
  {
  }

  lemma FirstPiece(v: Volume, cluster: nat, offset: nat, total: nat)
    requires v.Valid() && total > v.ClusterSize()
    ensures var size := v.ClusterSize();
      var first := ReadFrom(v, cluster, offset, size);
      ReadFrom(v, cluster, offset, total)
        == if first.Failed? then first else Then(first.bytes, ReadFrom(v, cluster, offset + size, total - size))
  {
    hide Volume.ClusterSize, Volume.ClusterPos;
  }

  // ---------------------------------------------------------------------
  // The guard is exact
  // ---------------------------------------------------------------------

  const ONES: Sector := seq(SECTOR_SIZE, _ => 1)
  const ZEROS: Sector := seq(SECTOR_SIZE, _ => 0)

  /** A volume whose chains go 2, 4, 4, 4, ..., with zeros at the start of cluster 4 and ones elsewhere. */
  function Gapped(sectorsPerCluster: nat, endingSector: nat): Volume {
    Volume(s => if s == endingSector + 2 * sectorsPerCluster then ZEROS else ONES, _ => 4, sectorsPerCluster, endingSector)
  }

  lemma {:induction false} GappedChain(v: Volume, n: nat)
    requires forall c :: v.fat(c) == 4
    ensures Walk(v, 2, n) == if n == 0 then 2 else 4
    ensures HasClusters(v, 2, n) && Walk(v, 4, n) == 4 && HasClusters(v, 4, n)
  {
    if n > 0 { GappedChain(v, n - 1); }
  }

  lemma {:induction false} GappedReads(v: Volume, size: nat, offset: nat, total: nat)
    requires v.Valid() && size > 0 && forall c :: v.fat(c) == 4
    ensures ReadPieces(v, size, 2, offset, total).Data?
    decreases total
  {
    hide Volume.ClusterPos;
    GappedChain(v, offset / size);
    if total > size { GappedReads(v, size, offset + size, total - size); }
  }

  /** In the gapped volume the byte after the first cluster a misaligned read touches is the wrong one. */
  lemma GapShows(v: Volume, offset: nat, total: nat)
    requires v.Valid() && v == Gapped(v.sectorsPerCluster, v.endingSector) && !Fits(v.ClusterSize(), offset, total)
    ensures ReadFrom(v, 2, offset, total) != ChainSlice(v, 2, offset, total)
  {
    var size := v.ClusterSize();
    var k, from := Index(offset, size), offset % size;
    hide Volume.ClusterSize, Volume.ClusterPos, ReadPieces, ChainSlice, DiskByte, Index;
    assert 0 < from < size && from + total > size;
    ChainByte(v, offset, total, size - from, k);
    GapReads(v, size, offset, total, k, from);
  }

  /** The reader, past the end of its first cluster, reads what lies behind it on the disk. */
  lemma GapReads(v: Volume, size: nat, offset: nat, total: nat, k: nat, from: nat)
    requires v.Valid() && v == Gapped(v.sectorsPerCluster, v.endingSector) && size == v.ClusterSize()
    requires k == Index(offset, size) && from == offset % size && 0 < from && from + total > size
    ensures var r := ReadPieces(v, size, 2, offset, total); r.Data? && r.bytes[size - from] == 1
    ensures DiskByte(v.disk, v.ClusterPos(4)) == 0
  {
    hide Volume.ClusterSize, Volume.ClusterPos, ReadPieces, DiskByte;
    GappedReads(v, size, offset, total);
    GappedChain(v, k);
    FirstBytes(v, size, 2, offset, total, size - from, if k == 0 then 2 else 4);
    GapBytes(v);
  }

  /** The positions just after clusters 2 and 4 hold ones; cluster 4 starts with a zero. */
  lemma GapBytes(v: Volume)
    requires v.Valid() && v == Gapped(v.sectorsPerCluster, v.endingSector)
    ensures DiskByte(v.disk, v.ClusterPos(2) + v.ClusterSize()) == 1
    ensures DiskByte(v.disk, v.ClusterPos(4) + v.ClusterSize()) == 1
    ensures DiskByte(v.disk, v.ClusterPos(4)) == 0
  {
    var n := v.sectorsPerCluster;
    assert v.ClusterPos(2) + v.ClusterSize() == (v.endingSector + n) * SECTOR_SIZE;
    assert v.ClusterPos(4) == (v.endingSector + 2 * n) * SECTOR_SIZE;
    assert v.ClusterPos(4) + v.ClusterSize() == (v.endingSector + 3 * n) * SECTOR_SIZE;
  }

  /** A byte of the first piece comes from the disk right behind the piece's start. */
  lemma FirstBytes(v: Volume, size: nat, cluster: nat, offset: nat, total: nat, i: nat, c: nat)
    requires v.Valid() && size > 0 && c == Walk(v, cluster, offset / size) && i < total && i < size
    ensures ReadPieces(v, size, cluster, offset, total).Data? ==>
      ReadPieces(v, size, cluster, offset, total).bytes[i] == DiskByte(v.disk, v.ClusterPos(c) + offset % size + i)
  {
    hide Volume.ClusterPos;
  }

  /** The byte of the chain at the start of cluster k+1. */
  lemma ChainByte(v: Volume, offset: nat, total: nat, gap: nat, k: nat)
    requires v.Valid() && forall c :: v.fat(c) == 4
    requires k == offset / v.ClusterSize() && gap == v.ClusterSize() - offset % v.ClusterSize() && gap < total
    ensures ChainSlice(v, 2, offset, total).Data?
    ensures ChainSlice(v, 2, offset, total).bytes[gap] == DiskByte(v.disk, v.ClusterPos(4))
  {
    hide Volume.ClusterSize, Volume.ClusterPos, Contents;
    var size := v.ClusterSize();
    var n := Needed(size, offset, total);
    GappedChain(v, n);
    GappedChain(v, k + 1);
    assert offset + gap == (k + 1) * size;
    DivIs(offset + gap, k + 1, size);
    MoreIsNeeded(size, offset + gap, offset + total - 1);
    ReachesEnd(v, 2, offset, total);
    PieceOfContents(v, 2, n, k + 1, 0, 1, offset + gap);
    assert Contents(v, 2, n)[offset + gap] == Contents(v, 2, n)[offset + gap..offset + gap + 1][0];
  }

  /** For given offset and total, the reader is right on every volume of a geometry if and only if the guard holds. */
  lemma GuardIsExact(sectorsPerCluster: nat, endingSector: nat, offset: nat, total: nat)
    requires sectorsPerCluster >= 1 && endingSector >= 2 * sectorsPerCluster
    ensures Fits(sectorsPerCluster * SECTOR_SIZE, offset, total) <==>
      forall v: Volume, cluster: nat ::
        v.sectorsPerCluster == sectorsPerCluster && v.endingSector == endingSector ==>
          ReadFrom(v, cluster, offset, total) == ChainSlice(v, cluster, offset, total)
  {
    var gapped := Gapped(sectorsPerCluster, endingSector);
    if Fits(sectorsPerCluster * SECTOR_SIZE, offset, total) {
      forall v: Volume, cluster: nat
        | v.sectorsPerCluster == sectorsPerCluster && v.endingSector == endingSector
        ensures ReadFrom(v, cluster, offset, total) == ChainSlice(v, cluster, offset, total)
      {
        ReadRefines(v, cluster, offset, total);
      }
    } else {
      GapShows(gapped, offset, total);
    }
  }

  // ---------------------------------------------------------------------
  // fat16_read
  // ---------------------------------------------------------------------

  /** nmemb reads of `size` bytes each, one after the other. */
  function ReadItems(v: Volume, cluster: nat, pos: nat, size: nat, nmemb: nat): Outcome
    requires v.Valid()
    decreases nmemb
  {
    if nmemb == 0 then Data([])
    else
      var first := ReadFrom(v, cluster, pos, size);
      if first.Failed? then first else Then(first.bytes, ReadItems(v, cluster, pos + size, size, nmemb - 1))
  }

  predicate ItemFits(cluster: nat, pos: nat, size: nat, i: nat)
    requires cluster > 0
  {
    Fits(cluster, pos + Start(i, size), size)
  }

  /** If every item fits, nmemb items are one slice of the chain. */
  lemma {:induction false} ItemsAreOneSlice(v: Volume, cluster: nat, pos: nat, size: nat, nmemb: nat)
    requires v.Valid() && nmemb >= 1
    requires forall i: nat :: i < nmemb ==> ItemFits(v.ClusterSize(), pos, size, i)
    ensures ReadItems(v, cluster, pos, size, nmemb) == ChainSlice(v, cluster, pos, nmemb * size)
    decreases nmemb
  {
    hide Volume.ClusterSize, ChainSlice, ReadFrom, Fits;
    assert Fits(v.ClusterSize(), pos, size) by { assert ItemFits(v.ClusterSize(), pos, size, 0); }
    ReadRefines(v, cluster, pos, size);
    if nmemb == 1 {
      assert ReadItems(v, cluster, pos + size, size, 0) == Data([]);
    } else {
      var clusterSize, next := v.ClusterSize(), pos + size;
      forall i: nat | i < nmemb - 1 ensures ItemFits(clusterSize, next, size, i) {
        assert ItemFits(v.ClusterSize(), pos, size, i + 1);
        assert pos + size + i * size == pos + (i + 1) * size;
      }
      ItemsAreOneSlice(v, cluster, pos + size, size, nmemb - 1);
      JoinItems(v, cluster, pos, size, nmemb - 1);
    }
  }

  lemma JoinItems(v: Volume, cluster: nat, pos: nat, size: nat, more: nat)
    requires v.Valid() && more >= 1
    ensures var first, rest := ChainSlice(v, cluster, pos, size), ChainSlice(v, cluster, pos + size, more * size);
      ChainSlice(v, cluster, pos, (more + 1) * size) == if first.Failed? then first else Then(first.bytes, rest)
  {
    hide Volume.ClusterSize, ChainSlice;
    var rest := more * size;
    assert (more + 1) * size == size + rest;
    ShortChain(v, cluster, pos, size);
    ShortChain(v, cluster, pos, size + rest);
    ShortChain(v, cluster, pos + size, rest);
    if size > 0 {
      assert rest > 0;
      ChainSliceAppend(v, cluster, pos, size, rest);
    }
  }

  /** Item sizes that divide the cluster size, at positions that are multiples of the item size. */
  lemma SmallItemsFit(cluster: nat, pos: nat, size: nat, i: nat)
    requires cluster > 0 && size > 0 && cluster % size == 0 && pos % size == 0
    ensures ItemFits(cluster, pos, size, i)
  {
    var x := pos + i * size;
    var j, k := x / cluster, cluster / size;
    var y := pos / size + i;
    assert x == y * size && cluster == k * size;
    var r := y - j * k;
    assert x % cluster == x - j * cluster;
    assert j * cluster == (j * k) * size;
    assert x % cluster == r * size by { Distribute(y, j * k, size); }
    RemainderFits(r, k, size);
  }

  lemma Distribute(y: int, z: int, size: nat)
    ensures y * size - z * size == (y - z) * size
  {
  }

  lemma RemainderFits(r: int, k: nat, size: nat)
    requires size > 0 && 0 <= r * size < k * size
    ensures r * size + size <= k * size
  {
    Below(r, k, size);
    Multiples(r, k, size);
  }

  lemma Below(r: int, k: nat, size: nat)
    requires size > 0
    ensures r < 0 ==> r * size < 0
    ensures r >= k ==> r * size >= k * size
  {
    assert r >= k ==> (r - k) * size >= 0;
  }

  /** Item sizes that are multiples of the cluster size, at cluster boundaries. */
  lemma LargeItemsFit(cluster: nat, pos: nat, size: nat, i: nat)
    requires cluster > 0 && size % cluster == 0 && pos % cluster == 0
    ensures ItemFits(cluster, pos, size, i)
  {
    var m, p := size / cluster, pos / cluster;
    assert pos + i * size == (p + i * m) * cluster;
    DivIs(pos + i * size, p + i * m, cluster);
  }

  /**
   fat16_read composes: with item sizes that divide the cluster size, or the other
   way round, and a position to match, nmemb items are one slice of the chain.
   */
  lemma FileRead(v: Volume, cluster: nat, pos: nat, size: nat, nmemb: nat)
    requires v.Valid() && size > 0 && nmemb >= 1
    requires (v.ClusterSize() % size == 0 && pos % size == 0) || (size % v.ClusterSize() == 0 && pos % v.ClusterSize() == 0)
    ensures ReadItems(v, cluster, pos, size, nmemb) == ChainSlice(v, cluster, pos, nmemb * size)
  {
    hide Volume.ClusterSize, ItemFits, ReadItems, ChainSlice;
    var clusterSize := v.ClusterSize();
    forall i: nat | i < nmemb ensures ItemFits(clusterSize, pos, size, i) {
      if clusterSize % size == 0 && pos % size == 0 {
        SmallItemsFit(clusterSize, pos, size, i);
      } else {
        LargeItemsFit(clusterSize, pos, size, i);
      }
    }
    ItemsAreOneSlice(v, cluster, pos, size, nmemb);
  }

  // ---------------------------------------------------------------------
  // The code
  // ---------------------------------------------------------------------

  /** Nothing outside [at, at+total) has changed. */
  predicate SameOutside(before: seq<Byte>, after: seq<Byte>, at: nat, total: nat) {
    && |after| == |before| && at + total <= |before|
    && after[..at] == before[..at] && after[at + total..] == before[at + total..]
  }

  /** An outcome as the code reports it: a status and the bytes in the buffer. */
  predicate Reports(outcome: Outcome, ok: int, res: int, before: seq<Byte>, after: seq<Byte>, at: nat, total: nat) {
    match outcome
    case Data(bytes) => res == ok && |bytes| == total && Put(before, after, at, bytes)
    case Failed(code) => res == code && SameOutside(before, after, at, total)
  }

  lemma ReportsPieces(
      a: seq<Byte>, rest: Outcome, ok: int, res: int, before: seq<Byte>, middle: seq<Byte>, after: seq<Byte>,
      at: nat, total: nat)
    requires |a| <= total && Put(before, middle, at, a)
    requires Reports(rest, ok, res, middle, after, at + |a|, total - |a|)
    ensures Reports(Then(a, rest), ok, res, before, after, at, total)
  {
    if rest.Data? {
      Joined(before, middle, after, at, a, rest.bytes);
    } else {
      assert after[..at] == after[..at + |a|][..at] && middle[..at + |a|] == before[..at] + a;
      assert middle[at + total..] == before[at + total..];
    }
  }

  datatype SeekMode = SeekSet | SeekCurrent | SeekEnd | OtherMode

  /** Position and status after fat16_seek; a sum of positions wraps and is not compared with the file size. */
  function Seeked(isFile: bool, filesize: Word, pos: Word, offset: Word, mode: SeekMode): (Word, int) {
    if !isFile then (pos, -EINVARG)
    else if offset >= filesize then (pos, -EIO)
    else match mode
         case SeekSet => (offset, 0)
         case SeekCurrent => ((pos + offset) % WORD_LIMIT, 0)
         case SeekEnd => (pos, -EUNIMP)
         case OtherMode => (pos, -EINVARG)
  }

  /** struct fat_file_descriptor, with the fields of its directory item that reading uses. */
  class FileDescriptor {
    const isFile: bool
    const firstCluster: nat
    const filesize: Word
    var pos: Word

    constructor (file: bool, first: nat, length: Word)
      ensures isFile == file && firstCluster == first && filesize == length && pos == 0
    {
      isFile, firstCluster, filesize, pos := file, first, length, 0;
    }

    /** fat16_seek. */
    method Seek(offset: Word, mode: SeekMode) returns (res: int)
      modifies this
      ensures (pos, res) == Seeked(isFile, filesize, old(pos), offset, mode)
      ensures res == 0 <==> isFile && offset < filesize && (mode == SeekSet || mode == SeekCurrent)
      ensures res == 0 ==> pos == if mode == SeekSet then offset else (old(pos) + offset) % WORD_LIMIT
      ensures res != 0 ==> pos == old(pos)
    {
      if !isFile {
        return -EINVARG;
      }
      if offset >= filesize {
        return -EIO;
      }
      res := 0;
      match mode
      case SeekSet => pos := offset;
      case SeekEnd => res := -EUNIMP;
      case SeekCurrent => pos := (pos + offset) % WORD_LIMIT;
      case OtherMode => res := -EINVARG;
    }
  }

  class Reader {
    const v: Volume
    const stream: DiskStream

    constructor (volume: Volume, s: DiskStream)
      ensures v == volume && stream == s
    {
      v, stream := volume, s;
    }

    ghost predicate Valid() {
      v.Valid() && stream.disk == v.disk
    }

    /** fat16_get_cluster_for_offset. */
    method GetClusterForOffset(startingCluster: nat, offset: nat) returns (res: int)
      requires Valid()
      ensures res == Walk(v, startingCluster, Index(offset, v.ClusterSize()))
    {
      hide Volume.ClusterSize, Index;
      var clusterToUse: nat := startingCluster;
      var clustersAhead := Index(offset, v.ClusterSize());
      for i := 0 to clustersAhead
        invariant Walk(v, clusterToUse, clustersAhead - i) == Walk(v, startingCluster, clustersAhead)
      {
        var entry := v.fat(clusterToUse);
        if Stops(entry) {
          return -EIO;
        }
        clusterToUse := entry;
      }
      res := clusterToUse;
    }

    /** fat16_read_internal_from_stream. */
    method ReadInternalFromStream(cluster: nat, offset: nat, total: nat, out: array<Byte>, at: nat) returns (res: int)
      requires Valid() && at + total <= out.Length
      modifies stream, out
      decreases total
      ensures Reports(ReadFrom(v, cluster, offset, total), 0, res, old(out[..]), out[..], at, total)
    {
      hide Volume.ClusterSize, Volume.ClusterPos, Slice, Put, SameOutside;
      var size := v.ClusterSize();
      var clusterToUse := GetClusterForOffset(cluster, offset);
      if clusterToUse < 0 {
        assert SameOutside(out[..], out[..], at, total) by { Untouched(out[..], at, total); }
        return clusterToUse;
      }
      var startingPos := v.ClusterPos(clusterToUse) + offset % size;
      var totalToRead := if total > size then size else total;
      res := stream.Seek(startingPos);
      res := stream.Read(out, at, totalToRead);
      if total - totalToRead > 0 {
        ghost var middle := out[..];
        res := ReadInternalFromStream(cluster, offset + totalToRead, total - totalToRead, out, at + totalToRead);
        ReportsPieces(Slice(v.disk, startingPos, totalToRead),
                      ReadFrom(v, cluster, offset + totalToRead, total - totalToRead),
                      0, res, old(out[..]), middle, out[..], at, total);
      }
    }

    /** fat16_read: nmemb items from the descriptor's position, which stays where it is. */
    method Read(desc: FileDescriptor, size: nat, nmemb: nat, out: array<Byte>) returns (res: int)
      requires Valid() && out.Length == nmemb * size
      modifies stream, out
      ensures desc.pos == old(desc.pos)
      ensures match ReadItems(v, desc.firstCluster, desc.pos, size, nmemb)
              case Data(bytes) => res == nmemb && out[..] == bytes
              case Failed(code) => res == code
    {
      hide Volume.ClusterSize, ReadFrom, ReadItems, Reports, Volume.Valid;
      var firstCluster, pos: nat := desc.firstCluster, desc.pos;
      ghost var all := ReadItems(v, firstCluster, pos, size, nmemb);
      assert all == Then(out[..0], all) by { Prepend(all); assert out[..0] == []; }
      var offset, at := pos, 0;
      for i := 0 to nmemb
        invariant at == i * size <= out.Length && offset == pos + at
        invariant all == Then(out[..at], ReadItems(v, firstCluster, offset, size, nmemb - i))
      {
        Multiples(i, nmemb, size);
        ItemEnd(i, size);
        ghost var before := out[..];
        res := ReadInternalFromStream(firstCluster, offset, size, out, at);
        NextItem(v, firstCluster, offset, size, nmemb - i, before, out[..], at, res);
        if res < 0 {
          return;
        }
        at := at + size;
        offset := offset + size;
      }
      NoItems(v, firstCluster, offset, size);
      assert out[..at] == out[..] && out[..] + [] == out[..];
      res := nmemb;
    }
  }

  lemma {:induction false} FailureCode(v: Volume, size: nat, cluster: nat, offset: nat, total: nat)
    requires v.Valid() && size > 0
    ensures ReadPieces(v, size, cluster, offset, total).Failed? ==>
      ReadPieces(v, size, cluster, offset, total) == Failed(-EIO)
    decreases total
  {
    hide Volume.ClusterPos;
    WalkError(v, cluster, Index(offset, size));
    if total > size { FailureCode(v, size, cluster, offset + size, total - size); }
  }

  lemma NextItem(
      v: Volume, cluster: nat, offset: nat, size: nat, left: nat, before: seq<Byte>, after: seq<Byte>, at: nat, res: int)
    requires v.Valid() && left >= 1 && at + size <= |before|
    requires Reports(ReadFrom(v, cluster, offset, size), 0, res, before, after, at, size)
    ensures |after| == |before|
    ensures res >= 0 ==>
      Then(before[..at], ReadItems(v, cluster, offset, size, left))
        == Then(after[..at + size], ReadItems(v, cluster, offset + size, size, left - 1))
    ensures res < 0 ==> Then(before[..at], ReadItems(v, cluster, offset, size, left)) == Failed(res)
  {
    hide Volume.ClusterSize, ReadPieces;
    FailureCode(v, v.ClusterSize(), cluster, offset, size);
    var first, rest := ReadFrom(v, cluster, offset, size), ReadItems(v, cluster, offset + size, size, left - 1);
    if first.Data? {
      assert after[..at + size] == before[..at] + first.bytes;
      if rest.Data? {
        assert before[..at] + (first.bytes + rest.bytes) == (before[..at] + first.bytes) + rest.bytes;
      }
    }
  }

  lemma NoItems(v: Volume, cluster: nat, pos: nat, size: nat)
    requires v.Valid()
    ensures ReadItems(v, cluster, pos, size, 0) == Data([])
  {
  }

  lemma Prepend(o: Outcome)
    ensures Then([], o) == o
  {
    if o.Data? { assert [] + o.bytes == o.bytes; }
  }

  lemma ItemEnd(i: nat, size: nat)
    ensures (i + 1) * size == i * size + size
  {
  }

  lemma Untouched(s: seq<Byte>, at: nat, total: nat)
    requires at + total <= |s|
    ensures SameOutside(s, s, at, total)
  {
  }
}
