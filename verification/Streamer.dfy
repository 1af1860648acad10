/**
 Disk streams (src/disk/streamer.c). The disk is an unbounded run of bytes, read a 512-byte sector at
 a time; it keeps a log of the sectors asked for. Ports and drive status are not part of this model.
 */
module Streamer {
  type Byte = b: nat | b < 256

  type Content = nat -> Byte

  class Disk {
    const content: Content
    var log: seq<nat>

    constructor (content: Content)
      ensures this.content == content && log == []
    {
      this.content, log := content, [];
    }

    /** disk_read_block for one sector. */
    method ReadBlock(lba: nat, buf: array<Byte>)
      requires buf.Length == 512
      modifies this, buf
      ensures log == old(log) + [lba]
      ensures buf[..] == Bytes(content, lba * 512, 512)
    {
      log := log + [lba];
      for i := 0 to 512
        invariant log == old(log) + [lba]
        invariant forall k :: 0 <= k < i ==> buf[k] == content(lba * 512 + k)
      {
        buf[i] := content(lba * 512 + i);
      }
      assert buf[..] == Bytes(content, lba * 512, 512);
    }
  }

  /** The bytes of the disk from pos on. */
  ghost function Bytes(content: Content, pos: nat, total: nat): (s: seq<Byte>)
    ensures |s| == total && forall i :: 0 <= i < total ==> s[i] == content(pos + i)
  {
    seq(total, i requires 0 <= i < total => content(pos + i))
  }

  /** The sectors from a up to and including b. */
  ghost function Sectors(a: nat, b: nat): seq<nat>
    requires a <= b
  {
    seq(b - a + 1, i requires 0 <= i < b - a + 1 => a + i)
  }

  lemma BytesSplit(content: Content, pos: nat, a: nat, b: nat)
    ensures Bytes(content, pos, a) + Bytes(content, pos + a, b) == Bytes(content, pos, a + b)
  {}

  /** A read within a sector asks for that one; a longer one asks for it and goes on at the next. */
  lemma SectorsSplit(start: nat, total: nat)
    ensures start % 512 + total < 512 ==> Sectors(start / 512, (start + total) / 512) == [start / 512]
    ensures start % 512 + total >= 512 ==>
              var n := 512 - start % 512;
              && n <= total && (start + n) / 512 == start / 512 + 1 <= (start + total) / 512
              && Sectors(start / 512, (start + total) / 512) ==
                 [start / 512] + Sectors(start / 512 + 1, (start + total) / 512)
  {}

  /** seq s with part put in its place at index at. */
  ghost function Splice<T>(s: seq<T>, at: nat, part: seq<T>): (r: seq<T>)
    requires at + |part| <= |s|
    ensures |r| == |s|
  {
    s[..at] + part + s[at + |part|..]
  }

  lemma SpliceAt<T>(s: seq<T>, at: nat, part: seq<T>, k: nat)
    requires at + |part| <= |s| && k < |s|
    ensures Splice(s, at, part)[k] == if at <= k < at + |part| then part[k - at] else s[k]
  {}

  lemma SectorAt(a: nat, b: nat, i: nat)
    requires a <= b && i <= b - a
    ensures |Sectors(a, b)| == b - a + 1 && Sectors(a, b)[i] == a + i
  {}

  lemma SpliceTwice<T>(s: seq<T>, at: nat, a: seq<T>, b: seq<T>)
    requires at + |a| + |b| <= |s|
    ensures Splice(Splice(s, at, a), at + |a|, b) == Splice(s, at, a + b)
  {}

  /** The copy loop of diskstreamer_read. */
  method CopyOut(buf: array<Byte>, offset: nat, out: array<Byte>, at: nat, n: nat)
    requires buf != out && offset + n <= buf.Length && at + n <= out.Length
    modifies out
    ensures out[..] == Splice(old(out[..]), at, buf[offset..offset + n])
  {
    ghost var before := out[..];
    for i := 0 to n
      invariant forall k :: 0 <= k < out.Length ==>
                  out[k] == if at <= k < at + i then buf[offset + k - at] else before[k]
    {
      out[at + i] := buf[offset + i];
    }
    assert out[..] == Splice(before, at, buf[offset..offset + n]);
  }

  lemma BytesSlice(content: Content, start: nat, size: nat, offset: nat, n: nat)
    requires offset + n <= size
    ensures Bytes(content, start, size)[offset..offset + n] == Bytes(content, start + offset, n)
  {}

  class Stream {
    var pos: nat
    const disk: Disk

    constructor (disk: Disk)
      ensures this.disk == disk && pos == 0
    {
      this.disk, pos := disk, 0;
    }

    /** diskstreamer_seek */
    method Seek(position: nat) returns (res: int)
      modifies this
      ensures res == 0 && pos == position
    {
      pos := position;
      res := 0;
    }

    /**
     diskstreamer_read: exactly the bytes [pos, pos + total), whatever the alignment, and every sector
     from the one of pos to the one of pos + total once and in order. A read that ends on a sector
     boundary thus reads one sector more than it needs.
     */
    method Read(out: array<Byte>, at: nat, total: nat) returns (res: int)
      requires at + total <= out.Length && pos + total < 0x8000_0000
      modifies this, disk, out
      ensures res == 0 && pos == old(pos) + total
      ensures out[..] == Splice(old(out[..]), at, Bytes(disk.content, old(pos), total))
      ensures disk.log == old(disk.log) + Sectors(old(pos) / 512, (old(pos) + total) / 512)
      decreases total
    {
      hide Bytes, Splice, Sectors;
      SectorsSplit(pos, total);
      var sector, offset := pos / 512, pos % 512;
      var totalToRead := total;
      var overflow := offset + totalToRead >= 512;
      var buf := new Byte[512];
      if overflow {
        totalToRead := totalToRead - (offset + totalToRead - 512);
      }
      ghost var before, start := out[..], pos;
      disk.ReadBlock(sector, buf);
      CopyOut(buf, offset, out, at, totalToRead);
      BytesSlice(disk.content, sector * 512, 512, offset, totalToRead);
      pos := pos + totalToRead;
      res := 0;
      if overflow {
        res := Read(out, at + totalToRead, total - totalToRead);
        BytesSplit(disk.content, start, totalToRead, total - totalToRead);
        SpliceTwice(before, at, Bytes(disk.content, start, totalToRead),
                    Bytes(disk.content, start + totalToRead, total - totalToRead));
      }
    }
  }
}
