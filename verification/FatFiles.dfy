/**
 Reading a file that is given by the list of its clusters: which bytes of the disk
 arrive, and where the file ends.
 */
module FatFiles {
  import opened StatusCodes
  import opened Memory
  import opened Streamer
  import opened Fat16
  import opened FatReads

  /** The entry of cluster i names the next, which is not zero, bad, reserved or an end mark. */
  predicate Follows(v: Volume, cs: seq<nat>, i: nat) {
    i + 1 < |cs| && v.fat(cs[i]) == cs[i + 1] && cs[i + 1] !in {0, 0xff0, 0xff6, 0xff7, 0xff8, 0xfff}
  }

  ghost predicate IsList(v: Volume, cs: seq<nat>) {
    cs != [] && forall i: nat :: i < |cs| - 1 ==> Follows(v, cs, i)
  }

  /** The entry of the last cluster is one of those six. */
  ghost predicate Ended(v: Volume, cs: seq<nat>) {
    cs != [] && v.fat(cs[|cs| - 1]) in {0, 0xff0, 0xff6, 0xff7, 0xff8, 0xfff}
  }

  /** Where on the disk byte r of a cluster lies. */
  function BytePos(v: Volume, c: nat, r: nat): nat
    requires v.Valid()
  {
    v.SectorIsNat(c);
    (v.endingSector + (c - 2) * v.sectorsPerCluster) * 512 + r
  }

  function Quotient(x: nat, size: nat): nat
    requires size > 0
  {
    x / size
  }

  function Remainder(x: nat, size: nat): nat
    requires size > 0
  {
    x % size
  }

  /** Byte x of the file is b: it lies x % size bytes into cluster number x / size of the list. */
  predicate IsFileByte(v: Volume, cs: seq<nat>, x: nat, b: Byte)
    requires v.Valid()
  {
    var size := v.sectorsPerCluster * 512;
    Quotient(x, size) < |cs| && DiskHas(v.disk, BytePos(v, cs[Quotient(x, size)], Remainder(x, size)), b)
  }

  predicate DiskHas(disk: Disk, p: nat, b: Byte) {
    disk(p / 512)[p % 512] == b
  }

  /** The bytes of the file from `offset`. */
  ghost predicate AreFileBytes(v: Volume, cs: seq<nat>, offset: nat, bytes: seq<Byte>)
    requires v.Valid()
  {
    forall x :: 0 <= x < |bytes| ==> IsFileByte(v, cs, offset + x, bytes[x])
  }

  // ---------------------------------------------------------------------
  // The walk along a list
  // ---------------------------------------------------------------------

  lemma {:induction false} ListWalk(v: Volume, cs: seq<nat>, i: nat)
    requires IsList(v, cs) && i < |cs|
    ensures Walk(v, cs[0], i) == cs[i]
    decreases i
  {
    if i > 0 {
      ListTail(v, cs);
      ListWalk(v, cs[1..], i - 1);
    }
  }

  lemma ListTail(v: Volume, cs: seq<nat>)
    requires IsList(v, cs) && |cs| > 1
    ensures IsList(v, cs[1..]) && v.fat(cs[0]) == cs[1] && !Stops(v.fat(cs[0]))
  {
    assert Follows(v, cs, 0);
    forall i: nat | i < |cs[1..]| - 1 ensures Follows(v, cs[1..], i) {
      assert Follows(v, cs, i + 1);
    }
  }

  lemma ListLong(v: Volume, cs: seq<nat>, n: nat)
    requires IsList(v, cs) && n <= |cs|
    ensures HasClusters(v, cs[0], n)
  {
    if n > 0 {
      ListWalk(v, cs, n - 1);
      WalkSucceedsIff(v, cs[0], n - 1);
    }
  }

  lemma ListShort(v: Volume, cs: seq<nat>, n: nat)
    requires IsList(v, cs) && Ended(v, cs) && n > |cs|
    ensures !HasClusters(v, cs[0], n)
  {
    var last := |cs| - 1;
    ListWalk(v, cs, last);
    assert Walk(v, cs[last], 1) == -EIO;
    WalkOn(v, cs[0], last, 1);
    WalkSucceedsIff(v, cs[0], |cs|);
    if HasClusters(v, cs[0], n) { Shorter(v, cs[0], |cs| + 1, n); }
  }

  // ---------------------------------------------------------------------
  // Slices of the chain
  // ---------------------------------------------------------------------

  lemma LessThanList(x: nat, k: nat, size: nat)
    requires size > 0
    ensures x < k * size <==> x / size < k
  {
    assert x == x / size * size + x % size;
    Ordered(x / size, k, size);
    Ordered(k, x / size, size);
  }

  lemma PlaceOnDisk(v: Volume, c: nat, r: nat)
    requires v.Valid()
    ensures BytePos(v, c, r) == v.ClusterPos(c) + r
    ensures DiskHas(v.disk, BytePos(v, c, r), DiskByte(v.disk, v.ClusterPos(c) + r))
  {
  }

  lemma SizeIs(v: Volume)
    requires v.Valid()
    ensures v.ClusterSize() == v.sectorsPerCluster * 512
  {
  }

  /** Byte x of a slice of the chain, by the cluster the walk finds. */
  lemma ChainAt(v: Volume, cluster: nat, offset: nat, total: nat, x: nat)
    requires v.Valid() && x < total && HasClusters(v, cluster, Needed(v.ClusterSize(), offset, total))
    ensures Walk(v, cluster, Index(offset + x, v.ClusterSize())) >= 0
    ensures ChainSlice(v, cluster, offset, total).bytes[x]
      == DiskByte(v.disk, v.ClusterPos(Walk(v, cluster, Index(offset + x, v.ClusterSize()))) + (offset + x) % v.ClusterSize())
  {
    hide Volume.ClusterSize, Volume.ClusterPos, Contents, HasClusters, DiskByte, Walk;
    var size, at := v.ClusterSize(), offset + x;
    var n, k := Needed(size, offset, total), at / size;
    MoreIsNeeded(size, at, offset + total - 1);
    ReachesEnd(v, cluster, offset, total);
    PieceOfContents(v, cluster, n, k, at % size, 1, at);
    assert Contents(v, cluster, n)[at] == Contents(v, cluster, n)[at..at + 1][0];
  }

  lemma SliceByte(v: Volume, cs: seq<nat>, offset: nat, total: nat, x: nat)
    requires v.Valid() && IsList(v, cs) && x < total && offset + total <= |cs| * v.ClusterSize()
    requires HasClusters(v, cs[0], Needed(v.ClusterSize(), offset, total))
    ensures IsFileByte(v, cs, offset + x, ChainSlice(v, cs[0], offset, total).bytes[x])
  {
    SizeIs(v);
    hide Volume.ClusterSize, Volume.ClusterPos, ChainSlice, HasClusters, DiskByte, Walk, IsList, DiskHas, BytePos, Needed;
    var size, at := v.ClusterSize(), offset + x;
    var k := Index(at, size);
    LessThanList(at, |cs|, size);
    ListWalk(v, cs, k);
    ChainAt(v, cs[0], offset, total, x);
    PlaceOnDisk(v, cs[k], at % size);
  }

  /** A slice of the chain that lies in the list is the file's bytes. */
  lemma SliceBytes(v: Volume, cs: seq<nat>, offset: nat, total: nat)
    requires v.Valid() && IsList(v, cs)
    requires offset < |cs| * v.ClusterSize() && offset + total <= |cs| * v.ClusterSize()
    ensures ChainSlice(v, cs[0], offset, total).Data?
    ensures AreFileBytes(v, cs, offset, ChainSlice(v, cs[0], offset, total).bytes)
  {
    hide Volume.ClusterSize, IsFileByte, IsList, HasClusters;
    var size := v.ClusterSize();
    LessThanList(if total == 0 then offset else offset + total - 1, |cs|, size);
    ListLong(v, cs, Needed(size, offset, total));
    forall x | 0 <= x < total
      ensures IsFileByte(v, cs, offset + x, ChainSlice(v, cs[0], offset, total).bytes[x])
    {
      SliceByte(v, cs, offset, total, x);
    }
  }

  /** A slice that goes beyond an ended list does not exist. */
  lemma SliceEnds(v: Volume, cs: seq<nat>, offset: nat, total: nat)
    requires v.Valid() && IsList(v, cs) && Ended(v, cs)
    requires offset >= |cs| * v.ClusterSize() || offset + total > |cs| * v.ClusterSize()
    ensures ChainSlice(v, cs[0], offset, total) == Failed(-EIO)
  {
    hide Volume.ClusterSize, IsList, Ended;
    var size := v.ClusterSize();
    LessThanList(if total == 0 then offset else offset + total - 1, |cs|, size);
    ListShort(v, cs, Needed(size, offset, total));
  }

  // ---------------------------------------------------------------------
  // Reads
  // ---------------------------------------------------------------------

  /** The read starts on a cluster boundary or stays within one cluster of `size` bytes. */
  predicate Aligned(size: nat, offset: nat, total: nat)
    requires size > 0
  {
    offset % size == 0 || offset % size + total <= size
  }

  /** The reader delivers the file's bytes, cluster after cluster of the list. */
  lemma ReadsFile(v: Volume, cs: seq<nat>, offset: nat, total: nat)
    requires v.Valid() && IsList(v, cs) && Aligned(v.sectorsPerCluster * 512, offset, total)
    requires offset < |cs| * (v.sectorsPerCluster * 512) && offset + total <= |cs| * (v.sectorsPerCluster * 512)
    ensures var r := ReadFrom(v, cs[0], offset, total);
      r.Data? && |r.bytes| == total && AreFileBytes(v, cs, offset, r.bytes)
  {
    hide ChainSlice, ReadPieces, AreFileBytes;
    ReadRefines(v, cs[0], offset, total);
    SliceBytes(v, cs, offset, total);
  }

  /** And fails, where the list has ended, exactly when it would need more. */
  lemma ReadEnds(v: Volume, cs: seq<nat>, offset: nat, total: nat)
    requires v.Valid() && IsList(v, cs) && Ended(v, cs) && Aligned(v.sectorsPerCluster * 512, offset, total)
    requires offset >= |cs| * (v.sectorsPerCluster * 512) || offset + total > |cs| * (v.sectorsPerCluster * 512)
    ensures ReadFrom(v, cs[0], offset, total) == Failed(-EIO)
  {
    hide ChainSlice, ReadPieces, Ended;
    ReadRefines(v, cs[0], offset, total);
    SliceEnds(v, cs, offset, total);
  }

  /** The same for the items of fat16_read. */
  lemma ItemsReadFile(v: Volume, cs: seq<nat>, pos: nat, size: nat, nmemb: nat)
    requires v.Valid() && IsList(v, cs) && nmemb >= 1 && AllFit(v.ClusterSize(), pos, size, nmemb)
    requires pos < |cs| * (v.sectorsPerCluster * 512) && pos + nmemb * size <= |cs| * (v.sectorsPerCluster * 512)
    ensures var r := ReadItems(v, cs[0], pos, size, nmemb);
      r.Data? && |r.bytes| == nmemb * size && AreFileBytes(v, cs, pos, r.bytes)
  {
    hide ChainSlice, ReadItems, AreFileBytes, ItemFits;
    ItemsAreOneSlice(v, cs[0], pos, size, nmemb);
    SliceBytes(v, cs, pos, nmemb * size);
  }

  /** A contiguous file in clusters 2 and 3. */
  lemma TwoClusters(v: Volume)
    requires v.Valid() && v.fat(2) == 3 && v.fat(3) == 0xfff
    ensures IsList(v, [2, 3]) && Ended(v, [2, 3])
    ensures var size := v.sectorsPerCluster * 512;
      var r := ReadFrom(v, 2, 0, 2 * size);
      r.Data? && |r.bytes| == 2 * size && AreFileBytes(v, [2, 3], 0, r.bytes)
  {
    hide AreFileBytes;
    ReadsFile(v, [2, 3], 0, 2 * (v.sectorsPerCluster * 512));
  }
}
