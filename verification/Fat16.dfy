/**
 Reading a file of a FAT16 volume (src/fs/fat/fat16.c:218-380): the cluster chain is followed through one
 disk stream, the data is read through another.
 */
module Fat16 {
  import opened Kernel
  import opened Streamer

  type Positive = n: nat | n > 0 witness 1

  function Quotient(m: nat, d: Positive): nat {
    m / d
  }

  /**
   The volume: disk bytes and the numbers of its header. dataStart is the sector where cluster 2
   begins (ending_sector_pos of the root directory).
   */
  datatype Geometry = Geometry(content: Content, reserved: nat, perCluster: Positive, dataStart: nat) {
    function ClusterBytes(): Positive {
      perCluster * 512
    }

    /** How many whole clusters lie before byte m of a file. */
    function Index(m: nat): nat {
      Quotient(m, ClusterBytes())
    }

    /** The place of byte m of a file inside its cluster. */
    function Within(m: nat): (r: nat)
      ensures r < ClusterBytes()
    {
      m % ClusterBytes()
    }

    lemma Parts(m: nat)
      ensures m == Index(m) * ClusterBytes() + Within(m)
    {}

    lemma SmallIndex(m: nat)
      requires m < ClusterBytes()
      ensures Index(m) == 0 && Within(m) == m
    {
      DivUnique(m, ClusterBytes(), 0, m);
    }

    lemma NextIndex(m: nat)
      ensures Index(m + ClusterBytes()) == Index(m) + 1 && Within(m + ClusterBytes()) == Within(m)
    {
      assert m == Index(m) * ClusterBytes() + Within(m);
      DivUnique(m + ClusterBytes(), ClusterBytes(), Index(m) + 1, Within(m));
    }

    lemma IndexOf(q: nat, r: nat)
      requires r < ClusterBytes()
      ensures Index(q * ClusterBytes() + r) == q && Within(q * ClusterBytes() + r) == r
    {
      DivUnique(q * ClusterBytes() + r, ClusterBytes(), q, r);
    }

    /** The number of chunks a request is cut into, less one. */
    function LastChunk(total: nat): nat {
      if total == 0 then 0 else Index(total - 1)
    }

    /** Header fields of their widths, and a data area far enough from the start for clusters 0 and 1 too. */
    ghost predicate Sound() {
      perCluster < 256 && reserved < 0x1_0000 && 2 * perCluster <= dataStart
    }

    /** All positions computed for a chunk that starts in cluster c fit a signed 32-bit number. */
    ghost predicate Near(c: nat) {
      ClusterPos(c) + 2 * ClusterBytes() < 0x8000_0000
    }

    /** The 16-bit little-endian entry of cluster c in the file allocation table. */
    function Entry(c: nat): (e: nat)
      ensures e < 0x1_0000
    {
      content(reserved * 512 + c * 2) + 256 * content(reserved * 512 + c * 2 + 1)
    }

    /** Entries at which following the chain is given up; the source compares with 12-bit marks. */
    static predicate Stops(e: nat) {
      e == 0xFF8 || e == 0xFFF || e == 0xFF7 || e == 0xFF0 || e == 0xFF6 || e == 0
    }

    /** The cluster k steps down the chain from c. */
    function Walk(c: nat, k: nat): (r: Option<nat>)
      ensures k > 0 && r.Some? ==> r.value < 0x1_0000
      decreases k
    {
      if k == 0 then Some(c)
      else if Stops(Entry(c)) then None
      else Walk(Entry(c), k - 1)
    }

    /** The end of a chain as the volume format has it: a free entry, the bad mark or an end mark of 16 bits. */
    static predicate EndsChain(e: nat) {
      e == 0 || e >= 0xFFF7
    }

    /** The chain as the volume format has it. */
    function FormatWalk(c: nat, k: nat): (r: Option<nat>)
      decreases k
    {
      if k == 0 then Some(c)
      else if EndsChain(Entry(c)) then None
      else FormatWalk(Entry(c), k - 1)
    }

    /** An entry that the 12-bit marks take for an end though it is none, or the other way round. */
    static predicate Misjudged(e: nat) {
      e == 0xFF0 || e == 0xFF6 || e == 0xFF7 || e == 0xFF8 || e == 0xFFF || e >= 0xFFF7
    }

    /** fat16_cluster_to_sector, as a byte position. */
    function ClusterPos(c: nat): int {
      (dataStart + (c - 2) * perCluster) * 512
    }
  }

  lemma {:induction false} WalkOn(g: Geometry, c: nat, k: nat)
    ensures g.Walk(c, k + 1) ==
            match g.Walk(c, k)
            case None => None
            case Some(d) => if Geometry.Stops(g.Entry(d)) then None else Some(g.Entry(d))
    decreases k
  {
    if k > 0 && !Geometry.Stops(g.Entry(c)) {
      WalkOn(g, g.Entry(c), k - 1);
    }
  }

  lemma {:induction false} WalkPrefix(g: Geometry, c: nat, j: nat, k: nat)
    requires j <= k && g.Walk(c, k).Some?
    ensures g.Walk(c, j).Some?
    decreases j
  {
    if j > 0 {
      WalkPrefix(g, g.Entry(c), j - 1, k - 1);
    }
  }

  // ----- the marks against the volume format

  ghost predicate SameStep(g: Geometry, c: nat, j: nat) {
    g.Walk(c, j) == g.FormatWalk(c, j)
  }

  /** The entry met after j steps is misjudged. */
  ghost predicate MeetsMisjudged(g: Geometry, c: nat, j: nat) {
    g.Walk(c, j).Some? && Geometry.Misjudged(g.Entry(g.Walk(c, j).value))
  }

  /** Following a chain agrees with the volume format for k steps if and only if no entry met is misjudged. */
  lemma {:induction false} MarksAgreeExactly(g: Geometry, c: nat, k: nat)
    ensures (forall j: nat :: j <= k ==> SameStep(g, c, j)) <==> (forall j: nat :: j < k ==> !MeetsMisjudged(g, c, j))
    decreases k
  {
    if k > 0 {
      var e := g.Entry(c);
      assert SameStep(g, c, 1) <==> !Geometry.Misjudged(e);
      assert MeetsMisjudged(g, c, 0) <==> Geometry.Misjudged(e);
      if !Geometry.Misjudged(e) && e != 0 {
        MarksAgreeExactly(g, e, k - 1);
        forall j: nat
          ensures SameStep(g, c, j + 1) <==> SameStep(g, e, j)
          ensures MeetsMisjudged(g, c, j + 1) <==> MeetsMisjudged(g, e, j)
        {}
        assert forall j: nat :: j > 0 ==> (SameStep(g, c, j) <==> SameStep(g, e, j - 1));
        assert forall j: nat :: j > 0 ==> (MeetsMisjudged(g, c, j) <==> MeetsMisjudged(g, e, j - 1));
        assert forall j: nat :: SameStep(g, e, j) ==> SameStep(g, c, j + 1);
        assert forall j: nat :: MeetsMisjudged(g, e, j) ==> MeetsMisjudged(g, c, j + 1);
      }
    }
  }

  /** A volume of one-sector clusters whose cluster 2 is the last of its chain, by the mark 0xFFFF. */
  ghost function Ended(): Geometry {
    Geometry(k => if k == 516 || k == 517 then 255 else 0, 1, 1, 10)
  }

  /** Reading past the end of that chain is not refused: it goes on in "cluster" 0xFFFF. */
  lemma EndMarkFollowed()
    ensures var g := Ended();
            && g.Sound() && g.Entry(2) == 0xFFFF && g.FormatWalk(2, 1) == None && g.Walk(2, 1) == Some(0xFFFF)
            && Served(g, 2, 512, 1)
  {
    var g := Ended();
    assert g.Entry(2) == 0xFFFF;
    g.SmallIndex(0);
    g.IndexOf(1, 0);
  }

  lemma PosBound(g: Geometry, c: nat)
    requires g.Sound() && c < 0x1_0000
    ensures 0 <= g.ClusterPos(c)
  {
    assert (c - 2) * g.perCluster == c * g.perCluster - 2 * g.perCluster;
  }

  // ----- volumes given by their table

  /** The entries lie on the disk as the table says, in 16 bits each, low byte first, behind the reserved sectors. */
  ghost predicate HasTable(g: Geometry, fat: seq<nat>) {
    forall i :: 0 <= i < |fat| ==>
      fat[i] < 0x1_0000 && g.content(g.reserved * 512 + 2 * i) == fat[i] % 256
      && g.content(g.reserved * 512 + 2 * i + 1) == fat[i] / 256
  }

  lemma EntryOfTable(g: Geometry, fat: seq<nat>, c: nat)
    requires HasTable(g, fat) && c < |fat|
    ensures g.Entry(c) == fat[c]
  {}

  lemma EntryOfTables(g: Geometry, c: nat)
    ensures forall fat :: HasTable(g, fat) && c < |fat| ==> g.Entry(c) == fat[c]
  {
    hide HasTable;
    forall fat | HasTable(g, fat) && c < |fat|
      ensures g.Entry(c) == fat[c]
    {
      EntryOfTable(g, fat, c);
    }
  }

  /** Clusters that follow each other by the table, none of them marked as an end on the way. */
  ghost predicate IsChain(fat: seq<nat>, cs: seq<nat>) {
    && (forall i :: 0 <= i < |cs| ==> cs[i] < |fat|)
    && forall i :: 0 < i < |cs| ==>
         cs[i] == fat[cs[i - 1]] && cs[i] !in {0, 0xFF0, 0xFF6, 0xFF7, 0xFF8, 0xFFF}
  }

  /** Walking follows such a chain. */
  lemma {:induction false} WalkOfTable(g: Geometry, fat: seq<nat>, cs: seq<nat>, i: nat)
    requires HasTable(g, fat) && IsChain(fat, cs) && i < |cs|
    ensures g.Walk(cs[0], i) == Some(cs[i])
    decreases i
  {
    if i > 0 {
      EntryOfTable(g, fat, cs[0]);
      assert cs[1] == fat[cs[0]];
      WalkOfTable(g, fat, cs[1..], i - 1);
    }
  }

  /**
   The kernel's own volume (src/boot/boot.asm:8-20): 128 sectors per cluster, 200 reserved ones, two tables of 256,
   and four for the root directory. Clusters up to 32762 are near: the first 2 GB.
   */
  ghost function BootVolume(content: Content): Geometry {
    Geometry(content, 200, 0x80, 716)
  }

  lemma BootVolumeIsSound(content: Content, c: nat)
    ensures BootVolume(content).Sound()
    ensures BootVolume(content).Near(c) <==> c <= 32762
  {}

  // ----- which disk bytes are delivered

  /** Where byte m of a file starting at cluster c lies: the position its chain gives it. */
  ghost function ChainPos(g: Geometry, c: nat, m: nat): int
    requires g.Walk(c, g.Index(m)).Some?
  {
    g.ClusterPos(g.Walk(c, g.Index(m)).value) + g.Within(m)
  }

  /**
   Where fat16_read_internal takes byte i of a request from: chunks are as long as a cluster, whatever
   the offset of the first one inside its cluster.
   */
  ghost function DeliveredPos(g: Geometry, c: nat, offset: nat, i: nat): int
    requires g.Walk(c, g.Index(offset) + g.Index(i)).Some?
  {
    g.ClusterPos(g.Walk(c, g.Index(offset) + g.Index(i)).value) + g.Within(offset) + g.Within(i)
  }

  /** The chain is long enough for every chunk of the request. */
  ghost predicate Served(g: Geometry, c: nat, offset: nat, total: nat) {
    g.Walk(c, g.Index(offset) + g.LastChunk(total)).Some?
  }

  /** The clusters that the request's chunks start in are near. */
  ghost predicate AllNear(g: Geometry, c: nat, offset: nat, total: nat) {
    forall k: nat :: g.Index(offset) <= k <= g.Index(offset) + g.LastChunk(total) ==> NearAt(g, c, k)
  }

  ghost predicate NearAt(g: Geometry, c: nat, k: nat) {
    g.Walk(c, k).Some? ==> g.Near(g.Walk(c, k).value)
  }

  /** What the first chunk leaves of a request has its clusters near, too. */
  lemma NearMore(g: Geometry, c: nat, offset: nat, total: nat)
    requires total > 0 && AllNear(g, c, offset, total + g.ClusterBytes())
    ensures AllNear(g, c, offset + g.ClusterBytes(), total)
  {
    hide NearAt;
    g.NextIndex(total - 1);
    g.NextIndex(offset);
  }

  lemma NearFirst(g: Geometry, c: nat, offset: nat, total: nat)
    requires AllNear(g, c, offset, total)
    ensures NearAt(g, c, g.Index(offset))
  {
  }

  /** v is what the request finds for its byte i. */
  ghost predicate Delivered(g: Geometry, c: nat, offset: nat, i: nat, v: Byte) {
    && g.Walk(c, g.Index(offset) + g.Index(i)).Some?
    && DeliveredPos(g, c, offset, i) >= 0
    && v == g.content(DeliveredPos(g, c, offset, i))
  }

  lemma FirstDelivered(g: Geometry, c: nat, offset: nat, d: nat, i: nat)
    requires g.Sound() && g.Walk(c, g.Index(offset)) == Some(d) && d < 0x1_0000 && i < g.ClusterBytes()
    ensures g.ClusterPos(d) >= 0
    ensures Delivered(g, c, offset, i, g.content(g.ClusterPos(d) + g.Within(offset) + i))
  {
    g.SmallIndex(i);
    PosBound(g, d);
  }

  lemma LaterChunk(g: Geometry, c: nat, offset: nat, i: nat, v: Byte)
    ensures Delivered(g, c, offset, i + g.ClusterBytes(), v) <==> Delivered(g, c, offset + g.ClusterBytes(), i, v)
  {
    g.NextIndex(i);
    g.NextIndex(offset);
  }

  lemma ServedOne(g: Geometry, c: nat, offset: nat, total: nat)
    requires total <= g.ClusterBytes()
    ensures Served(g, c, offset, total) <==> g.Walk(c, g.Index(offset)).Some?
  {
    if total > 0 { g.SmallIndex(total - 1); }
  }

  lemma ServedMore(g: Geometry, c: nat, offset: nat, total: nat)
    requires total > 0
    ensures Served(g, c, offset, total + g.ClusterBytes()) <==> Served(g, c, offset + g.ClusterBytes(), total)
    ensures Served(g, c, offset, total + g.ClusterBytes()) ==> g.Walk(c, g.Index(offset)).Some?
  {
    g.NextIndex(total - 1);
    g.NextIndex(offset);
    if Served(g, c, offset, total + g.ClusterBytes()) {
      WalkPrefix(g, c, g.Index(offset), g.Index(offset) + g.LastChunk(total + g.ClusterBytes()));
    }
  }

  lemma DivUnique(x: nat, m: nat, q: nat, r: nat)
    requires m > 0 && x == q * m + r && r < m
    ensures x / m == q && x % m == r
  {
    var d := x / m - q;
    assert d * m == r - x % m;
    SmallMultiple(d, m);
  }

  lemma SmallMultiple(d: int, m: nat)
    requires m > 0 && 0 - m < d * m < m
    ensures d == 0
  {}

  // ----- the code

  class Volume {
    const disk: Disk
    const fatStream: Stream
    const dataStream: Stream
    const g: Geometry

    constructor (disk: Disk, fatStream: Stream, dataStream: Stream, g: Geometry)
      ensures this.disk == disk && this.fatStream == fatStream && this.dataStream == dataStream && this.g == g
    {
      this.disk, this.fatStream, this.dataStream, this.g := disk, fatStream, dataStream, g;
    }

    ghost predicate Valid() {
      && g.Sound() && g.content == disk.content
      && fatStream != dataStream && fatStream.disk == disk && dataStream.disk == disk
    }

    /** fat16_get_fat_entry: only the FAT stream moves. */
    method GetFatEntry(cluster: nat) returns (res: int)
      requires Valid() && cluster < 0x1_0000
      modifies fatStream, disk
      ensures res == g.Entry(cluster)
      ensures forall fat :: HasTable(g, fat) && cluster < |fat| ==> res == fat[cluster]
    {
      hide HasTable;
      EntryOfTables(g, cluster);
      var position := g.reserved * 512;
      res := fatStream.Seek(position + cluster * 2);
      var result := new Byte[2];
      res := fatStream.Read(result, 0, 2);
      assert result[..][0] == g.content(position + cluster * 2);
      assert result[..][1] == g.content(position + cluster * 2 + 1);
      var low: int, high: int := result[0], result[1];
      res := low + 256 * high;
    }

    /** fat16_get_cluster_for_offset: ends for every content of the table, cyclic chains included. */
    method GetClusterForOffset(start: nat, offset: nat) returns (res: int)
      requires Valid() && start < 0x1_0000
      modifies fatStream, disk
      ensures match g.Walk(start, g.Index(offset))
              case None => res == -EIO
              case Some(d) => res == d && d < 0x1_0000
    {
      var clusterToUse := start;
      var clustersAhead := g.Index(offset);
      for i := 0 to clustersAhead
        invariant clusterToUse < 0x1_0000 && g.Walk(start, i) == Some(clusterToUse)
      {
        var entry := GetFatEntry(clusterToUse);
        WalkOn(g, start, i);
        if Geometry.Stops(entry) {
          if g.Walk(start, clustersAhead).Some? {
            WalkPrefix(g, start, i + 1, clustersAhead);
          }
          return -EIO;
        }
        clusterToUse := entry;
      }
      return clusterToUse;
    }

    /**
     fat16_read_internal_from_stream: on success byte i of the request is the disk byte at DeliveredPos,
     and it succeeds exactly when the chain serves every chunk.
     */
    method ReadFromStream(start: nat, offset: nat, total: nat, out: array<Byte>, at: nat) returns (res: int)
      requires Valid() && start < 0x1_0000
      requires at + total <= out.Length && offset + total < 0x8000_0000 && AllNear(g, start, offset, total)
      modifies fatStream, dataStream, disk, out
      ensures res == if Served(g, start, offset, total) then 0 else -EIO
      ensures forall k :: 0 <= k < out.Length && !(at <= k < at + total) ==> out[k] == old(out[k])
      ensures res == 0 ==> forall k :: at <= k < at + total ==> Delivered(g, start, offset, k - at, out[k])
      decreases total
    {
      hide Delivered, Served, Bytes, AllNear;
      var size := g.ClusterBytes();
      NearFirst(g, start, offset, total);
      if total > size {
        ServedMore(g, start, offset, total - size);
        NearMore(g, start, offset, total - size);
      } else {
        ServedOne(g, start, offset, total);
      }
      var clusterToUse := GetClusterForOffset(start, offset);
      if clusterToUse < 0 {
        return clusterToUse;
      }
      var offsetFromCluster := g.Within(offset);
      PosBound(g, clusterToUse);
      var startingPos := g.ClusterPos(clusterToUse) + offsetFromCluster;
      var totalToRead := if total > size then size else total;
      res := dataStream.Seek(startingPos);
      ghost var before := out[..];
      res := dataStream.Read(out, at, totalToRead);
      assert out[..] == Splice(before, at, Bytes(g.content, startingPos, totalToRead));
      forall k | at <= k < at + totalToRead
        ensures Delivered(g, start, offset, k - at, out[k])
      {
        assert out[..][k] == Bytes(g.content, startingPos, totalToRead)[k - at];
        FirstDelivered(g, start, offset, clusterToUse, k - at);
      }
      ghost var mid := out[..];
      var left := total - totalToRead;
      if left > 0 {
        res := ReadFromStream(start, offset + totalToRead, left, out, at + totalToRead);
        forall k | at + size <= k < at + total
          ensures res == 0 ==> Delivered(g, start, offset, k - at, out[k])
        {
          LaterChunk(g, start, offset, k - at - size, out[k]);
        }
        assert forall k :: at <= k < at + size ==> out[k] == mid[k];
      }
    }

    /**
     fat16_read_internal. A request inside the chain succeeds, and gives the slice [offset, offset + total) of
     the concatenated clusters if its crossing chunks find the next cluster adjacent.
     */
    method ReadInternal(start: nat, offset: nat, total: nat, out: array<Byte>, at: nat) returns (res: int)
      requires Valid() && start < 0x1_0000
      requires at + total <= out.Length && offset + total < 0x8000_0000 && AllNear(g, start, offset, total)
      modifies fatStream, dataStream, disk, out
      ensures res == if Served(g, start, offset, total) then 0 else -EIO
      ensures forall k :: 0 <= k < out.Length && !(at <= k < at + total) ==> out[k] == old(out[k])
      ensures res == 0 ==> forall k :: at <= k < at + total ==> Delivered(g, start, offset, k - at, out[k])
      ensures InChain(g, start, offset, total) && total > 0 ==> res == 0
      ensures InChain(g, start, offset, total) && total > 0 && CrossingsContiguous(g, start, offset, total) ==>
                out[at..at + total] == FileSlice(g, start, offset, total)
    {
      hide Delivered, Served, CrossingsContiguous, FileSlice, InChain, AllNear;
      res := ReadFromStream(start, offset, total, out, at);
      if InChain(g, start, offset, total) && total > 0 {
        InChainServed(g, start, offset, total);
        if CrossingsContiguous(g, start, offset, total) {
          ghost var part := out[at..at + total];
          forall i: nat | i < total
            ensures Delivered(g, start, offset, i, part[i])
          {
            assert part[i] == out[at + i];
          }
          ReadDeliversSlice(g, start, offset, part);
        }
      }
    }

    /**
     fat16_read of nmemb items of size bytes from the descriptor's position: item j is a request of its
     own at pos + j * size. The position of the descriptor is not advanced.
     */
    method Read(first: nat, pos: nat, size: nat, nmemb: nat, out: array<Byte>) returns (res: int)
      requires Valid() && first < 0x1_0000
      requires nmemb * size <= out.Length && pos + nmemb * size < 0x8000_0000
      requires forall j: nat :: j < nmemb ==> ItemNear(g, first, pos, size, j)
      modifies fatStream, dataStream, disk, out
      ensures res == if ItemsServed(g, first, pos, size, nmemb) then nmemb else -EIO
      ensures res >= 0 ==> forall j: nat :: j < nmemb ==> ItemDelivered(g, first, pos, size, j, out[..])
    {
      hide Delivered, Served, AllNear;
      var offset, outPtr := pos, 0;
      for j := 0 to nmemb
        invariant offset == pos + j * size && outPtr == j * size
        invariant ItemsServed(g, first, pos, size, j)
        invariant forall k: nat :: k < j ==> ItemDelivered(g, first, pos, size, k, out[..])
      {
        ItemEnds(j, nmemb, size);
        assert ItemNear(g, first, pos, size, j);
        ghost var before := out[..];
        res := ReadInternal(first, offset, size, out, outPtr);
        if res < 0 {
          assert !ItemServed(g, first, pos, size, j);
          return;
        }
        forall k: nat | k < j
          ensures ItemDelivered(g, first, pos, size, k, out[..])
        {
          ItemEnds(k, j, size);
          assert ItemDelivered(g, first, pos, size, k, before);
        }
        offset, outPtr := offset + size, outPtr + size;
      }
      res := nmemb;
    }
  }

  ghost predicate ItemServed(g: Geometry, c: nat, pos: nat, size: nat, j: nat) {
    Served(g, c, pos + j * size, size)
  }

  ghost predicate ItemNear(g: Geometry, c: nat, pos: nat, size: nat, j: nat) {
    AllNear(g, c, pos + j * size, size)
  }

  ghost predicate ItemsServed(g: Geometry, c: nat, pos: nat, size: nat, nmemb: nat) {
    forall j: nat :: j < nmemb ==> ItemServed(g, c, pos, size, j)
  }

  ghost predicate ItemDelivered(g: Geometry, c: nat, pos: nat, size: nat, j: nat, out: seq<Byte>) {
    && j * size + size <= |out|
    && forall k :: j * size <= k < j * size + size ==> Delivered(g, c, pos + j * size, k - j * size, out[k])
  }

  lemma ItemEnds(j: nat, n: nat, size: nat)
    requires j < n
    ensures j * size + size == (j + 1) * size <= n * size
  {}

  // ----- delivered bytes against the file's own bytes

  /** The bytes of n clusters of the chain from c, one cluster after the other. */
  ghost function ChainBytes(g: Geometry, c: nat, n: nat): (s: seq<Byte>)
    requires g.Sound() && c < 0x1_0000 && (n > 0 ==> g.Walk(c, n - 1).Some?)
    ensures |s| == n * g.ClusterBytes()
    decreases n
  {
    if n == 0 then []
    else
      PosBound(g, c);
      if n == 1 then Bytes(g.content, g.ClusterPos(c), g.ClusterBytes())
      else Bytes(g.content, g.ClusterPos(c), g.ClusterBytes()) + ChainBytes(g, g.Entry(c), n - 1)
  }

  /** Byte m of the concatenated clusters is the disk byte at ChainPos. */
  lemma {:induction false} ChainByteAt(g: Geometry, c: nat, n: nat, m: nat)
    requires g.Sound() && c < 0x1_0000 && n > 0 && g.Walk(c, n - 1).Some? && m < n * g.ClusterBytes()
    ensures g.Walk(c, g.Index(m)).Some? && ChainPos(g, c, m) >= 0
    ensures m < |ChainBytes(g, c, n)| && ChainBytes(g, c, n)[m] == g.content(ChainPos(g, c, m))
    decreases n
  {
    PosBound(g, c);
    if m < g.ClusterBytes() {
      g.SmallIndex(m);
    } else {
      g.NextIndex(m - g.ClusterBytes());
      ChainByteAt(g, g.Entry(c), n - 1, m - g.ClusterBytes());
    }
  }

  /** Cluster 2 begins the data area, and each cluster follows the one before. */
  lemma ClusterPositions(g: Geometry, c: nat)
    ensures g.ClusterPos(2) == g.dataStart * 512
    ensures g.ClusterPos(c) == (g.dataStart + (c - 2) * g.perCluster) * 512
    ensures g.ClusterPos(c + 1) == g.ClusterPos(c) + g.perCluster * 512
  {
    assert (c + 1 - 2) * g.perCluster == (c - 2) * g.perCluster + g.perCluster;
  }

  /** The bytes of a file whose clusters are cs, in plain numbers: byte m comes from cluster number m / size of it. */
  lemma BytesOfTable(g: Geometry, fat: seq<nat>, cs: seq<nat>, m: nat)
    requires g.Sound() && HasTable(g, fat) && IsChain(fat, cs) && |cs| > 0 && cs[0] < 0x1_0000
    requires m < |cs| * (g.perCluster * 512)
    ensures g.Walk(cs[0], |cs| - 1).Some?
    ensures var size: Positive := g.perCluster * 512;
            && Quotient(m, size) < |cs| && m < |ChainBytes(g, cs[0], |cs|)|
            && var pos := (g.dataStart + (cs[Quotient(m, size)] - 2) * g.perCluster) * 512 + m % size;
               pos >= 0 && ChainBytes(g, cs[0], |cs|)[m] == g.content(pos)
  {
    hide ChainBytes;
    WalkOfTable(g, fat, cs, |cs| - 1);
    ChainByteAt(g, cs[0], |cs|, m);
    IndexBelow(g, |cs|, m);
    WalkOfTable(g, fat, cs, g.Index(m));
  }

  lemma IndexBelow(g: Geometry, n: nat, m: nat)
    requires m < n * g.ClusterBytes()
    ensures g.Index(m) < n
  {
    g.Parts(m);
    hide Quotient, Geometry.Index, Geometry.Within;
    var d := g.Index(m) - n;
    assert m - n * g.ClusterBytes() == d * g.ClusterBytes() + g.Within(m);
    if d >= 0 { NotNegative(d, g.ClusterBytes()); }
  }

  lemma NotNegative(d: nat, C: nat)
    ensures d * C >= 0
  {}

  /** Chunks that run over the end of their cluster go on in the cluster that follows on the disk. */
  ghost predicate CrossingsContiguous(g: Geometry, c: nat, offset: nat, total: nat) {
    forall j: nat :: Crosses(g, offset, total, j) ==>
      && g.Walk(c, g.Index(offset) + j).Some? && g.Walk(c, g.Index(offset) + j + 1).Some?
      && g.Walk(c, g.Index(offset) + j + 1).value == g.Walk(c, g.Index(offset) + j).value + 1
  }

  /** Chunk j of the request reaches past the end of the cluster it starts in. */
  ghost predicate Crosses(g: Geometry, offset: nat, total: nat, j: nat) {
    g.Within(offset) > 0 && j * g.ClusterBytes() + g.ClusterBytes() - g.Within(offset) < total
  }

  /** The chain reaches to the last byte of the request. */
  ghost predicate InChain(g: Geometry, c: nat, offset: nat, total: nat) {
    total > 0 ==> g.Walk(c, g.Index(offset + total - 1)).Some?
  }

  lemma SumParts(C: nat, q1: nat, r1: nat, q2: nat, r2: nat)
    ensures (q1 * C + r1) + (q2 * C + r2) == (q1 + q2) * C + (r1 + r2)
    ensures (q1 + q2) * C + C == (q1 + q2 + 1) * C
  {}

  /** Byte i of the request, seen from the file: one cluster on if its chunk has crossed. */
  lemma IndexOfSum(g: Geometry, offset: nat, i: nat)
    ensures var r := g.Within(offset) + g.Within(i);
            if r < g.ClusterBytes()
            then g.Index(offset + i) == g.Index(offset) + g.Index(i) && g.Within(offset + i) == r
            else g.Index(offset + i) == g.Index(offset) + g.Index(i) + 1 && g.Within(offset + i) == r - g.ClusterBytes()
  {
    g.Parts(offset);
    g.Parts(i);
    hide Quotient, Geometry.Index, Geometry.Within;
    var C, q, r := g.ClusterBytes(), g.Index(offset) + g.Index(i), g.Within(offset) + g.Within(i);
    SumParts(C, g.Index(offset), g.Within(offset), g.Index(i), g.Within(i));
    if r < C { g.IndexOf(q, r); } else { g.IndexOf(q + 1, r - C); }
  }

  /** The request and the file take byte i of the request from the same place. */
  ghost predicate SamePos(g: Geometry, c: nat, offset: nat, i: nat) {
    && g.Walk(c, g.Index(offset) + g.Index(i)).Some?
    && g.Walk(c, g.Index(offset + i)).Some?
    && DeliveredPos(g, c, offset, i) == ChainPos(g, c, offset + i)
  }

  lemma AdjacentClusters(g: Geometry, d: nat, e: nat)
    ensures g.ClusterPos(d) + g.ClusterBytes() == g.ClusterPos(e) <==> e == d + 1
  {
    var x := e - d - 1;
    assert g.ClusterPos(e) - g.ClusterPos(d) - g.ClusterBytes() == x * g.ClusterBytes() by {
      assert (e - 2) * g.perCluster == (d - 2) * g.perCluster + g.perCluster + x * g.perCluster;
    }
    NoSmallProduct(x, g.ClusterBytes());
  }

  lemma NoSmallProduct(x: int, C: Positive)
    ensures x * C == 0 <==> x == 0
  {}

  lemma SameIfContiguous(g: Geometry, c: nat, offset: nat, total: nat, i: nat)
    requires i < total && InChain(g, c, offset, total) && CrossingsContiguous(g, c, offset, total)
    ensures SamePos(g, c, offset, i)
  {
    hide Geometry.Index, Geometry.Within, Geometry.ClusterBytes, Geometry.ClusterPos;
    IndexOfSum(g, offset, i);
    IndexMonotone(g, offset + i, offset + total - 1);
    WalkPrefix(g, c, g.Index(offset + i), g.Index(offset + total - 1));
    WalkPrefix(g, c, g.Index(offset) + g.Index(i), g.Index(offset + i));
    if g.Within(offset) + g.Within(i) >= g.ClusterBytes() {
      var j := g.Index(i);
      g.Parts(i);
      assert Crosses(g, offset, total, j);
      AdjacentClusters(g, g.Walk(c, g.Index(offset) + j).value, g.Walk(c, g.Index(offset) + j + 1).value);
    }
  }

  lemma ContiguousIfSame(g: Geometry, c: nat, offset: nat, total: nat, j: nat)
    requires Crosses(g, offset, total, j)
    requires forall i: nat :: i < total ==> SamePos(g, c, offset, i)
    ensures g.Walk(c, g.Index(offset) + j).Some? && g.Walk(c, g.Index(offset) + j + 1).Some?
    ensures g.Walk(c, g.Index(offset) + j + 1).value == g.Walk(c, g.Index(offset) + j).value + 1
  {
    hide Geometry.Index, Geometry.Within, Geometry.ClusterBytes, Geometry.ClusterPos;
    var r := g.ClusterBytes() - g.Within(offset);
    var i := j * g.ClusterBytes() + r;
    g.IndexOf(j, r);
    IndexOfSum(g, offset, i);
    assert SamePos(g, c, offset, i);
    AdjacentClusters(g, g.Walk(c, g.Index(offset) + j).value, g.Walk(c, g.Index(offset) + j + 1).value);
  }

  lemma IndexMonotone(g: Geometry, a: nat, b: nat)
    requires a <= b
    ensures g.Index(a) <= g.Index(b)
  {
    g.Parts(a);
    g.Parts(b);
    hide Quotient, Geometry.Index, Geometry.Within;
    var d := g.Index(a) - g.Index(b);
    assert a - b == d * g.ClusterBytes() + g.Within(a) - g.Within(b);
    if d > 0 {
      AtLeastOne(d, g.ClusterBytes());
    }
  }

  lemma AtLeastOne(d: nat, C: nat)
    requires d > 0
    ensures d * C >= C
  {}

  /**
   For every offset and length inside the chain: the request takes every byte from its place in the
   file if and only if each chunk that runs over the end of its cluster finds the chain's next cluster
   right behind it on the disk.
   */
  lemma ExactlyWhenContiguous(g: Geometry, c: nat, offset: nat, total: nat)
    requires InChain(g, c, offset, total)
    ensures (forall i: nat :: i < total ==> SamePos(g, c, offset, i)) <==> CrossingsContiguous(g, c, offset, total)
  {
    hide Crosses, InChain, SamePos;
    if CrossingsContiguous(g, c, offset, total) {
      forall i: nat | i < total
        ensures SamePos(g, c, offset, i)
      {
        SameIfContiguous(g, c, offset, total, i);
      }
    }
    if forall i: nat :: i < total ==> SamePos(g, c, offset, i) {
      forall j: nat | Crosses(g, offset, total, j)
        ensures && g.Walk(c, g.Index(offset) + j).Some? && g.Walk(c, g.Index(offset) + j + 1).Some?
                && g.Walk(c, g.Index(offset) + j + 1).value == g.Walk(c, g.Index(offset) + j).value + 1
      {
        ContiguousIfSame(g, c, offset, total, j);
      }
    }
  }

  /** A request that starts on a cluster boundary, or stays inside one cluster, crosses nothing. */
  lemma AlignedCrossesNothing(g: Geometry, c: nat, offset: nat, total: nat)
    requires g.Within(offset) == 0 || g.Within(offset) + total <= g.ClusterBytes()
    ensures CrossingsContiguous(g, c, offset, total)
  {
    forall j: nat
      ensures !Crosses(g, offset, total, j)
    {
      assert j * g.ClusterBytes() >= 0;
    }
  }

  /** A request inside the chain is served. */
  lemma InChainServed(g: Geometry, c: nat, offset: nat, total: nat)
    requires InChain(g, c, offset, total) && total > 0
    ensures Served(g, c, offset, total)
  {
    IndexOfSum(g, offset, total - 1);
    WalkPrefix(g, c, g.Index(offset) + g.Index(total - 1), g.Index(offset + total - 1));
  }

  /** Bytes offset to offset + total of the file: of the concatenation of as many clusters as that takes. */
  ghost function FileSlice(g: Geometry, c: nat, offset: nat, total: nat): (s: seq<Byte>)
    requires g.Sound() && c < 0x1_0000 && InChain(g, c, offset, total) && total > 0
    ensures |s| == total
  {
    var last := offset + total - 1;
    g.Parts(last);
    SumParts(g.ClusterBytes(), g.Index(last), 0, 0, 0);
    ChainBytes(g, c, g.Index(last) + 1)[offset..offset + total]
  }

  /** What the read delivers is the slice [offset, offset + total) of the concatenated clusters. */
  lemma ReadDeliversSlice(g: Geometry, c: nat, offset: nat, out: seq<Byte>)
    requires g.Sound() && c < 0x1_0000 && InChain(g, c, offset, |out|) && |out| > 0
    requires CrossingsContiguous(g, c, offset, |out|)
    requires forall i: nat :: i < |out| ==> Delivered(g, c, offset, i, out[i])
    ensures out == FileSlice(g, c, offset, |out|)
  {
    hide Geometry.Index, Geometry.Within, Geometry.ClusterBytes, ChainBytes, CrossingsContiguous;
    var last := offset + |out| - 1;
    var n := g.Index(last) + 1;
    g.Parts(last);
    SumParts(g.ClusterBytes(), g.Index(last), 0, 0, 0);
    assert last < n * g.ClusterBytes();
    forall i: nat | i < |out|
      ensures out[i] == ChainBytes(g, c, n)[offset + i]
    {
      SameIfContiguous(g, c, offset, |out|, i);
      ChainByteAt(g, c, n, offset + i);
      assert Delivered(g, c, offset, i, out[i]);
    }
  }

  /** A volume of one-sector clusters, in whose chain cluster 4 follows cluster 2. */
  ghost function Scattered(): Geometry {
    Geometry(k => if k == 516 then 4 else if k == 5120 + 1024 then 1 else 0, 1, 1, 10)
  }

  /** Reading two bytes across the boundary of the clusters 2 and 4 delivers the first byte of cluster 3. */
  lemma ScatteredReadFails()
    ensures var g := Scattered();
            && g.Sound() && InChain(g, 2, 511, 2) && Served(g, 2, 511, 2)
            && g.Walk(2, g.Index(511) + g.Index(1)).Some? && g.Walk(2, g.Index(512)).Some?
            && DeliveredPos(g, 2, 511, 1) == 5120 + 512 && ChainPos(g, 2, 512) == 5120 + 1024
            && g.content(5120 + 512) != g.content(5120 + 1024)
  {
    var g := Scattered();
    assert g.ClusterBytes() == 512 && g.Index(511) == 0 && g.Index(1) == 0 && g.Index(512) == 1;
    assert g.Entry(2) == 4;
    assert g.Walk(2, 1) == Some(4);
  }

  /**
   How elf_load reads a file: one item of the whole size from position 0 is served when the chain is as long as
   the size says, and is then the file, byte for byte.
   */
  lemma WholeFile(g: Geometry, c: nat, size: nat)
    requires g.Sound() && c < 0x1_0000 && size > 0 && InChain(g, c, 0, size)
    ensures ItemServed(g, c, 0, size, 0)
    ensures forall out :: |out| == size && ItemDelivered(g, c, 0, size, 0, out) ==> out == FileSlice(g, c, 0, size)
  {
    hide ChainBytes, Delivered, FileSlice, Served;
    g.SmallIndex(0);
    assert 0 * size == 0;
    InChainServed(g, c, 0, size);
    AlignedCrossesNothing(g, c, 0, size);
    forall out | |out| == size && ItemDelivered(g, c, 0, size, 0, out)
      ensures out == FileSlice(g, c, 0, size)
    {
      ReadDeliversSlice(g, c, 0, out);
    }
  }
}
