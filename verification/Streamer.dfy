/**
 streamer.c: byte-granular reading of a disk that only delivers whole sectors.
 */
module Streamer {
  import opened Memory

  const SECTOR_SIZE := 512

  type Sector = s: seq<Byte> | |s| == SECTOR_SIZE witness seq(SECTOR_SIZE, _ => 0)

  /** A disk whose reads succeed: the contents of every sector. */
  type Disk = nat -> Sector

  function DiskByte(disk: Disk, p: nat): Byte {
    disk(p / SECTOR_SIZE)[p % SECTOR_SIZE]
  }

  /** The n bytes of the disk from position pos, sectors aside. */
  function Slice(disk: Disk, pos: nat, n: nat): (s: seq<Byte>)
    ensures |s| == n
  {
    seq<Byte>(n, i requires 0 <= i < n => DiskByte(disk, pos + i))
  }

  /** Two consecutive slices are one longer slice. */
  lemma SliceAppend(disk: Disk, pos: nat, m: nat, n: nat)
    ensures Slice(disk, pos, m) + Slice(disk, pos + m, n) == Slice(disk, pos, m + n)
  {
    var a, b := Slice(disk, pos, m) + Slice(disk, pos + m, n), Slice(disk, pos, m + n);
    forall i | 0 <= i < m + n ensures a[i] == b[i] {
      if i >= m {
        assert a[i] == Slice(disk, pos + m, n)[i - m];
      }
    }
  }

  lemma WithinSector(disk: Disk, pos: nat, n: nat)
    requires pos % SECTOR_SIZE + n <= SECTOR_SIZE
    ensures Slice(disk, pos, n) == disk(pos / SECTOR_SIZE)[pos % SECTOR_SIZE..pos % SECTOR_SIZE + n]
  {
    var a, b := Slice(disk, pos, n), disk(pos / SECTOR_SIZE)[pos % SECTOR_SIZE..pos % SECTOR_SIZE + n];
    forall i | 0 <= i < n ensures a[i] == b[i] {
      assert (pos + i) / SECTOR_SIZE == pos / SECTOR_SIZE && (pos + i) % SECTOR_SIZE == pos % SECTOR_SIZE + i;
      assert a[i] == DiskByte(disk, pos + i);
    }
  }

  class DiskStream {
    var pos: nat
    const disk: Disk

    constructor (d: Disk)
      ensures pos == 0 && disk == d
    {
      pos, disk := 0, d;
    }

    /** diskstreamer_seek. */
    method Seek(p: nat) returns (res: int)
      modifies this
      ensures pos == p && res == 0
    {
      pos := p;
      res := 0;
    }

    /** The part of diskstreamer_read that takes from one sector; more is left to read if it overflows. */
    method ReadSector(out: array<Byte>, at: nat, total: nat) returns (totalToRead: nat, overflow: bool)
      requires at + total <= out.Length
      modifies this, out
      ensures totalToRead <= total && (if overflow then totalToRead > 0 else totalToRead == total)
      ensures pos == old(pos) + totalToRead
      ensures Put(old(out[..]), out[..], at, Slice(disk, old(pos), totalToRead))
    {
      hide Slice, Put;
      var sector, offset := pos / SECTOR_SIZE, pos % SECTOR_SIZE;
      totalToRead := total;
      overflow := offset + totalToRead >= SECTOR_SIZE;
      if overflow {
        totalToRead := totalToRead - (offset + totalToRead - SECTOR_SIZE);
      }
      var buf := disk(sector);
      WithinSector(disk, pos, totalToRead);
      CopyOut(out, at, buf, offset, totalToRead);
      pos := pos + totalToRead;
    }

    /** diskstreamer_read into out from index `at`: sector by sector, by recursion. */
    method Read(out: array<Byte>, at: nat, total: nat) returns (res: int)
      requires at + total <= out.Length
      modifies this, out
      decreases total
      ensures res == 0 && pos == old(pos) + total
      ensures Put(old(out[..]), out[..], at, Slice(disk, old(pos), total))
    {
      hide Slice, Put;
      ghost var start, before := pos, out[..];
      var totalToRead, overflow := ReadSector(out, at, total);
      ghost var middle := out[..];
      res := 0;
      if overflow {
        res := Read(out, at + totalToRead, total - totalToRead);
        SliceAppend(disk, start, totalToRead, total - totalToRead);
        Joined(before, middle, out[..], at, Slice(disk, start, totalToRead),
               Slice(disk, start + totalToRead, total - totalToRead));
      }
    }
  }

  /** `after` is `before` with `data` from index `at`. */
  predicate Put(before: seq<Byte>, after: seq<Byte>, at: nat, data: seq<Byte>) {
    at + |data| <= |before| && after == before[..at] + data + before[at + |data|..]
  }

  /** Writing two pieces one after the other writes their concatenation. */
  lemma Joined(before: seq<Byte>, middle: seq<Byte>, after: seq<Byte>, at: nat, a: seq<Byte>, b: seq<Byte>)
    requires Put(before, middle, at, a) && Put(middle, after, at + |a|, b)
    ensures Put(before, after, at, a + b)
  {
    assert middle[..at + |a|] == before[..at] + a;
    assert middle[at + |a| + |b|..] == before[at + |a| + |b|..];
    assert after == before[..at] + (a + b) + before[at + |a + b|..];
  }

  /** The copy loop of diskstreamer_read. */
  method CopyOut(out: array<Byte>, at: nat, buf: seq<Byte>, offset: nat, n: nat)
    requires at + n <= out.Length && offset + n <= |buf|
    modifies out
    ensures Put(old(out[..]), out[..], at, buf[offset..offset + n])
  {
    for i := 0 to n
      invariant forall j :: 0 <= j < out.Length ==>
        out[j] == if at <= j < at + i then buf[offset + j - at] else old(out[j])
    {
      out[at + i] := buf[offset + i];
    }
  }
}
