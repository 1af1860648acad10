/**
 Building and releasing an address space out of the heap: paging_new_4gb and paging_free_4gb
 (src/memory/paging/paging.c:34-53 and :356-366).
 */
module PageDirectories {
  import opened Kernel
  import opened Bits
  import opened Heap
  import opened Paging

  // ----- one-block allocations

  ghost function FreeBlocks(t: Table): (s: set<nat>)
  {
    set b: nat | b < |t| && IsFree(t[b])
  }

  /** While a block is free, a one-block request takes a free block and nothing else. */
  lemma OneBlock(t: Table)
    requires WellFormed(t) && FreeBlocks(t) != {}
    ensures var a := Allocate(t, 1);
            && a.Block? && a.start in FreeBlocks(t) && a.start !in Live(t)
            && WellFormed(Take(t, a.start, 1))
            && Live(Take(t, a.start, 1)) == Live(t)[a.start := 1]
            && FreeBlocks(Take(t, a.start, 1)) == FreeBlocks(t) - {a.start}
  {
    var b :| b in FreeBlocks(t);
    assert FreeWindow(t, b, 1);
    var s := FirstFit(t, 1, 0).value;
    assert IsFree(t[s]);
    TakeAddsRun(t, s, 1);
    assert Take(t, s, 1) == t[s := TAKEN | IS_FIRST];
  }

  /** The live runs with a one-block run added at every block of s. */
  ghost function Singles(live: map<nat, nat>, s: set<nat>): map<nat, nat> {
    map k | k in live.Keys + s :: if k in s then 1 else live[k]
  }

  /** The table is t with one-block allocations made at the blocks in s, which were free. */
  ghost predicate Grown(t: Table, u: Table, s: set<nat>) {
    && WellFormed(t) && WellFormed(u) && |u| == |t|
    && s <= FreeBlocks(t)
    && Live(u) == Singles(Live(t), s)
    && FreeBlocks(u) == FreeBlocks(t) - s
  }

  lemma GrownStep(t: Table, u: Table, s: set<nat>)
    requires Grown(t, u, s) && FreeBlocks(u) != {}
    ensures var a := Allocate(u, 1);
            a.Block? && a.start !in s && Grown(t, Take(u, a.start, 1), s + {a.start})
  {
    hide Live, WellFormed, FreeBlocks;
    OneBlock(u);
    var b := Allocate(u, 1).start;
    assert Live(u)[b := 1] == Singles(Live(t), s + {b});
    assert FreeBlocks(t) - s - {b} == FreeBlocks(t) - (s + {b});
  }

  lemma FreeRemains(t: Table, s: set<nat>, n: nat)
    requires s <= FreeBlocks(t) && |s| < n <= |FreeBlocks(t)|
    ensures FreeBlocks(t) - s != {}
  {
    if FreeBlocks(t) - s == {} {
      forall b | b in FreeBlocks(t)
        ensures b in s
      {
        assert b !in FreeBlocks(t) - s;
      }
      SubsetSize(FreeBlocks(t), s);
    }
  }

  /** A free block is no run's block: one-block runs at free blocks are new and disjoint from the rest. */
  lemma FreeIsNotLive(t: Table, b: nat)
    requires WellFormed(t) && b in FreeBlocks(t)
    ensures b !in Live(t)
  {
    assert LocallyWellFormed(t, b);
  }

  // ----- building

  /** struct paging_4gb_chunk, without the fault queue, and the address of its own block. */
  datatype Chunk = Chunk(record: nat, directory: nat)

  /** The directory entry for a table at address a. */
  function DirectoryEntry(a: Word, flags: Word): Word {
    Or32(Or32(Or32(Or32(Or32(a, flags), WRITEABLE), ACCESS_FROM_ALL), CACHE_DISABLED), PRESENT)
  }

  /** A page-aligned table address survives the packing of flags. */
  lemma DirectoryEntryPage(a: Word, flags: Word)
    requires Aligned(a) && flags < 4096
    ensures PageOf(DirectoryEntry(a, flags)) == a
  {
    hide Or32, PageOf;
    var f1 := Or32(flags, WRITEABLE);
    var f2 := Or32(f1, ACCESS_FROM_ALL);
    var f3 := Or32(f2, CACHE_DISABLED);
    Packing(a, flags);
    MorePacking(a, flags, WRITEABLE);
    MorePacking(a, f1, ACCESS_FROM_ALL);
    MorePacking(a, f2, CACHE_DISABLED);
    MorePacking(a, f3, PRESENT);
    Packing(a, Or32(f3, PRESENT));
  }

  /** The four flags of paging_new_4gb are set in the entry, whatever flags it was asked for. */
  lemma DirectoryEntryFlags(a: Word, flags: Word)
    ensures var e := DirectoryEntry(a, flags); IsOpen(e) && And(e, 0x10) != 0
  {
    hide Or;
    var f0 := Or32(a, flags);
    var f1 := Or32(f0, WRITEABLE);
    var f2 := Or32(f1, ACCESS_FROM_ALL);
    var f3 := Or32(f2, CACHE_DISABLED);
    assert And(WRITEABLE, 0x02) != 0 && And(ACCESS_FROM_ALL, 0x04) != 0 && And(CACHE_DISABLED, 0x10) != 0;
    assert And(PRESENT, 0x01) != 0;
    hide And;
    OrTest(f0, WRITEABLE, 0x02);
    OrTest(f1, ACCESS_FROM_ALL, 0x02);
    OrTest(f1, ACCESS_FROM_ALL, 0x04);
    OrTest(f2, CACHE_DISABLED, 0x02);
    OrTest(f2, CACHE_DISABLED, 0x04);
    OrTest(f2, CACHE_DISABLED, 0x10);
    OrTest(f3, PRESENT, 0x01);
    OrTest(f3, PRESENT, 0x02);
    OrTest(f3, PRESENT, 0x04);
    OrTest(f3, PRESENT, 0x10);
  }

  /** Every page maps to itself, with the given flags. */
  ghost function IdentityMap(flags: Word): (f: FlatMap) {
    seq(0x10_0000, p requires 0 <= p < 0x10_0000 => Or32(p * 4096, flags))
  }

  /** The table for the 4 MB from number i on. */
  ghost function IdentityTable(i: nat, flags: Word): (f: Frame)
    requires i < 1024
  {
    seq(1024, b requires 0 <= b < 1024 => Or32(i * 0x40_0000 + b * 4096, flags))
  }

  ghost function ZeroFrame(): Frame {
    seq(1024, _ => 0)
  }

  /** A kmalloc of at most one page while the heap has a free block left. */
  method MallocOne(heap: KernelHeap, size: nat, ghost t: Table, ghost used: set<nat>)
      returns (address: nat, ghost s: nat)
    requires heap.Valid() && Grown(t, heap.entries[..], used) && |used| < |FreeBlocks(t)|
    requires 1 <= size <= 4096
    modifies heap.entries
    ensures heap.Valid() && s !in used && Grown(t, heap.entries[..], used + {s})
    ensures s < heap.entries.Length && address == heap.saddr + 4096 * s
  {
    assert BlocksFor(size) == 1;
    FreeRemains(t, used, |used| + 1);
    GrownStep(t, heap.entries[..], used);
    s := Allocate(heap.entries[..], 1).start;
    var r := heap.Malloc(size);
    address := r.value;
  }

  /** kzalloc of one page: a block of the heap, its frame cleared. */
  method KZallocFrame(heap: KernelHeap, ram: Ram, ghost t: Table, ghost used: set<nat>)
      returns (address: Word, ghost s: nat)
    requires heap.Valid() && Grown(t, heap.entries[..], used) && |used| < |FreeBlocks(t)|
    modifies heap.entries, ram
    ensures heap.Valid() && s !in used && Grown(t, heap.entries[..], used + {s})
    ensures s < heap.entries.Length && address == heap.saddr + 4096 * s
    ensures ram.frames == old(ram.frames)[address := ZeroFrame()]
  {
    address, s := MallocOne(heap, 4096, t, used);
    ram.frames := ram.frames[address := seq(1024, _ => 0)];
    assert ram.frames[address] == ZeroFrame();
  }

  /** The inner loop of paging_new_4gb: entry b of the table maps page b of its 4 MB to itself. */
  method FillTable(ram: Ram, table: nat, ghost i: nat, offset: Word, flags: Word)
    requires table in ram.frames && i < 1024 && offset == i * 0x40_0000
    modifies ram
    ensures ram.frames == old(ram.frames)[table := IdentityTable(i, flags)]
  {
    ghost var before := ram.frames;
    for b := 0 to 1024
      invariant ram.frames.Keys == before.Keys
      invariant forall a :: a in before && a != table ==> ram.frames[a] == before[a]
      invariant forall k :: 0 <= k < b ==> ram.frames[table][k] == IdentityTable(i, flags)[k]
    {
      ram.frames := Poke(ram.frames, table, b, Or32((offset + b * 4096) % WORD, flags));
    }
    assert ram.frames[table] == IdentityTable(i, flags);
  }

  ghost predicate TablesBuilt(frames: Frames, d: nat, tables: seq<Word>, flags: Word) {
    && d in frames && |tables| <= 1024 && d !in tables
    && (forall j, k :: 0 <= j < k < |tables| ==> tables[j] != tables[k])
    && (forall j :: 0 <= j < |tables| ==> Aligned(tables[j]) && frames[d][j] == DirectoryEntry(tables[j], flags))
    && (forall j :: 0 <= j < |tables| ==> tables[j] in frames && frames[tables[j]] == IdentityTable(j, flags))
  }

  lemma TablesBuiltStep(frames: Frames, after: Frames, d: nat, tables: seq<Word>, a: Word, flags: Word)
    requires TablesBuilt(frames, d, tables, flags) && |tables| < 1024
    requires Aligned(a) && a != d && a !in tables
    requires after == Poke(frames[a := IdentityTable(|tables|, flags)], d, |tables|, DirectoryEntry(a, flags))
    ensures TablesBuilt(after, d, tables + [a], flags)
  {
  }

  ghost function Members(s: seq<Word>): set<nat> {
    set a: nat | a in s
  }

  /** 1024 built tables are a directory that maps every page to itself. */
  lemma TablesBuiltIdentity(frames: Frames, d: nat, tables: seq<Word>, flags: Word)
    requires TablesBuilt(frames, d, tables, flags) && |tables| == 1024 && flags < 4096
    ensures IsDirectory(frames, d) && Flat(frames, d) == IdentityMap(flags)
    ensures Footprint(frames, d) == {d} + Members(tables)
    ensures forall i: nat :: i < 1024 ==> IsOpen(frames[d][i]) && And(frames[d][i], 0x10) != 0
  {
    forall i: nat | i < 1024
      ensures IsOpen(frames[d][i]) && And(frames[d][i], 0x10) != 0
    {
      DirectoryEntryFlags(tables[i], flags);
    }
    forall j: nat | j < 1024
      ensures TableAt(frames, d, j) == tables[j]
    {
      DirectoryEntryPage(tables[j], flags);
    }
    forall p: nat | p < 0x10_0000
      ensures Entry(frames, d, p) == Or32(p * 4096, flags)
    {
      assert frames[tables[p / 1024]] == IdentityTable(p / 1024, flags);
      assert p == 1024 * (p / 1024) + p % 1024;
    }
  }

  ghost function Addresses(saddr: nat, blocks: set<nat>): set<nat> {
    set b | b in blocks :: saddr + 4096 * b
  }

  lemma AddressesGrow(saddr: nat, blocks: set<nat>, s: nat)
    requires s !in blocks
    ensures Addresses(saddr, blocks + {s}) == Addresses(saddr, blocks) + {saddr + 4096 * s}
    ensures saddr + 4096 * s !in Addresses(saddr, blocks)
  {
  }

  ghost predicate SameElsewhere(before: Frames, after: Frames, s: set<nat>) {
    forall a :: a in before && a !in s ==> a in after && after[a] == before[a]
  }

  /** The frames while tables are added, seen from the frames before. */
  ghost predicate Building(before: Frames, frames: Frames, d: nat, tables: seq<Word>, flags: Word) {
    TablesBuilt(frames, d, tables, flags) && SameElsewhere(before, frames, {d} + Members(tables))
  }

  /** The heap while tables are added: blocks are drawn for the directory and its tables. */
  ghost predicate Drawn(t: Table, u: Table, saddr: nat, d: nat, tables: seq<Word>, blocks: set<nat>) {
    && Grown(t, u, blocks) && |blocks| == |tables| + 1
    && Addresses(saddr, blocks) == {d} + Members(tables)
  }

  lemma TablesThere(before: Frames, frames: Frames, d: nat, tables: seq<Word>, flags: Word)
    requires Building(before, frames, d, tables, flags)
    ensures d in frames
  {}

  lemma DrawnCount(t: Table, u: Table, saddr: nat, d: nat, tables: seq<Word>, blocks: set<nat>)
    requires Drawn(t, u, saddr, d, tables, blocks)
    ensures |blocks| == |tables| + 1
  {}

  lemma MembersGrow(tables: seq<Word>, a: Word)
    ensures Members(tables + [a]) == Members(tables) + {a}
    ensures a in tables <==> a in Members(tables)
  {
  }

  lemma DrawnStep(t: Table, u: Table, v: Table, saddr: nat, d: nat, tables: seq<Word>, blocks: set<nat>,
                  a: Word, s: nat)
    requires Drawn(t, u, saddr, d, tables, blocks)
    requires s !in blocks && Grown(t, v, blocks + {s}) && a == saddr + 4096 * s
    ensures Drawn(t, v, saddr, d, tables + [a], blocks + {s})
    ensures a != d && a !in tables
  {
    AddressesGrow(saddr, blocks, s);
    MembersGrow(tables, a);
  }

  lemma BuildingStep(before: Frames, mid: Frames, after: Frames, d: nat, tables: seq<Word>, flags: Word, a: Word)
    requires Building(before, mid, d, tables, flags) && |tables| < 1024
    requires Aligned(a) && a != d && a !in tables
    requires after == Poke(mid[a := IdentityTable(|tables|, flags)], d, |tables|, DirectoryEntry(a, flags))
    ensures Building(before, after, d, tables + [a], flags)
  {
    MembersGrow(tables, a);
    TablesBuiltStep(mid, after, d, tables, a, flags);
  }

  /** One round of the outer loop of paging_new_4gb. */
  method AddTable(heap: KernelHeap, ram: Ram, directory: Word, offset: Word, i: nat, flags: Word, ghost t: Table,
                  ghost before: Frames, ghost tables: seq<Word>, ghost blocks: set<nat>)
      returns (entry: Word, ghost s: nat)
    requires heap.Valid() && i == |tables| < 1024 && offset == i * 0x40_0000 && |blocks| < |FreeBlocks(t)|
    requires Drawn(t, heap.entries[..], heap.saddr, directory, tables, blocks)
    requires Building(before, ram.frames, directory, tables, flags)
    modifies heap.entries, ram
    ensures heap.Valid()
    ensures Drawn(t, heap.entries[..], heap.saddr, directory, tables + [entry], blocks + {s})
    ensures Building(before, ram.frames, directory, tables + [entry], flags)
  {
    hide Grown, Members, DirectoryEntry, IdentityTable, Addresses, TablesBuilt, SameElsewhere;
    TablesThere(before, ram.frames, directory, tables, flags);
    ghost var u, mid := heap.entries[..], ram.frames;
    entry, s := KZallocFrame(heap, ram, t, blocks);
    DrawnStep(t, u, heap.entries[..], heap.saddr, directory, tables, blocks, entry, s);
    FillTable(ram, entry, i, offset, flags);
    ram.frames := Poke(ram.frames, directory, i, DirectoryEntry(entry, flags));
    assert ram.frames == Poke(mid[entry := IdentityTable(i, flags)], directory, i, DirectoryEntry(entry, flags));
    BuildingStep(before, mid, ram.frames, directory, tables, flags, entry);
  }

  /** The outer loop of paging_new_4gb. */
  method AddTables(heap: KernelHeap, ram: Ram, directory: Word, flags: Word, ghost t: Table, ghost before: Frames,
                   ghost first: nat)
      returns (ghost tables: seq<Word>, ghost blocks: set<nat>)
    requires heap.Valid() && |FreeBlocks(t)| >= 1026
    requires Drawn(t, heap.entries[..], heap.saddr, directory, [], {first})
    requires Building(before, ram.frames, directory, [], flags)
    modifies heap.entries, ram
    ensures heap.Valid() && |tables| == 1024
    ensures Drawn(t, heap.entries[..], heap.saddr, directory, tables, blocks)
    ensures Building(before, ram.frames, directory, tables, flags)
  {
    hide Drawn, Building;
    ghost var s;
    tables, blocks := [], {first};
    var offset: Word := 0;
    for i := 0 to 1024
      invariant heap.Valid() && |tables| == i && offset == if i == 1024 then 0 else i * 0x40_0000
      invariant Drawn(t, heap.entries[..], heap.saddr, directory, tables, blocks)
      invariant Building(before, ram.frames, directory, tables, flags)
    {
      DrawnCount(t, heap.entries[..], heap.saddr, directory, tables, blocks);
      var entry;
      entry, s := AddTable(heap, ram, directory, offset, i, flags, t, before, tables, blocks);
      Wrap(offset + 1024 * 4096, WORD);
      offset := (offset + 1024 * 4096) % WORD;
      tables := tables + [entry];
      blocks := blocks + {s};
    }
  }

  /**
   A new address space: 1026 new blocks, and a directory over them that maps every page to itself, its own entries
   present, writeable, user-accessible and uncached.
   */
  ghost predicate NewSpace(t: Table, u: Table, saddr: nat, before: Frames, after: Frames, flags: Word,
                           chunk: Chunk, blocks: set<nat>) {
    && |blocks| == 1026 && Grown(t, u, blocks)
    && IsDirectory(after, chunk.directory) && Flat(after, chunk.directory) == IdentityMap(flags)
    && OpenDirectory(after, chunk.directory)
    && (forall i: nat :: i < 1024 ==> And(after[chunk.directory][i], 0x10) != 0)
    && Footprint(after, chunk.directory) + {chunk.record} == Addresses(saddr, blocks)
    && chunk.record !in Footprint(after, chunk.directory)
    && SameElsewhere(before, after, Addresses(saddr, blocks))
  }

  /** Its pages have exactly the flags that were asked for, and user code can touch those that have them. */
  lemma NewSpaceFlags(t: Table, u: Table, saddr: nat, before: Frames, after: Frames, flags: Word, chunk: Chunk,
                      blocks: set<nat>, a: Word)
    requires NewSpace(t, u, saddr, before, after, flags, chunk, blocks) && flags < 4096
    ensures var entry := Flat(after, chunk.directory)[a / 4096]; PageOf(entry) == a - a % 4096 && entry % 4096 == flags
    ensures UserReads(after, chunk.directory, a) <==> And(flags, 0x01) != 0 && And(flags, 0x04) != 0
    ensures UserWrites(after, chunk.directory, a) <==> IsOpen(flags)
  {
    hide Or32, And, IsDirectory, Grown, Footprint, SameElsewhere;
    var page := a - a % 4096;
    Packing(page, flags);
    TestPacked(page, flags, 0x01);
    TestPacked(page, flags, 0x02);
    TestPacked(page, flags, 0x04);
    FlatDecides(after, chunk.directory, a);
  }

  lemma NothingBuilt(before: Frames, d: nat, flags: Word)
    ensures Building(before, before[d := ZeroFrame()], d, [], flags)
  {}

  lemma NothingDrawn(t: Table)
    requires WellFormed(t)
    ensures Grown(t, t, {})
  {
    assert Live(t) == Singles(Live(t), {});
  }

  lemma Assembled(t: Table, u: Table, v: Table, saddr: nat, before: Frames, after: Frames, flags: Word, d: nat,
                  tables: seq<Word>, blocks: set<nat>, s: nat)
    requires Drawn(t, u, saddr, d, tables, blocks) && Building(before, after, d, tables, flags) && |tables| == 1024
    requires s !in blocks && Grown(t, v, blocks + {s}) && flags < 4096
    ensures NewSpace(t, v, saddr, before, after, flags, Chunk(saddr + 4096 * s, d), blocks + {s})
  {
    hide Grown, DirectoryEntry, IsDirectory, Members, TablesBuilt, Flat, IdentityMap, IsOpen, And;
    AddressesGrow(saddr, blocks, s);
    TablesBuiltIdentity(after, d, tables, flags);
  }

  /**
   paging_new_4gb: 1026 blocks of the heap become a directory, its 1024 tables and the chunk record,
   and the directory maps all 4 GB to itself. Without 1026 free blocks the source writes through a
   null pointer.
   */
  method New4gb(heap: KernelHeap, ram: Ram, flags: Word) returns (chunk: Chunk, ghost blocks: set<nat>)
    requires heap.Valid() && flags < 256 && |FreeBlocks(heap.entries[..])| >= 1026
    modifies heap.entries, ram
    ensures heap.Valid()
    ensures NewSpace(old(heap.entries[..]), heap.entries[..], heap.saddr, old(ram.frames), ram.frames,
                     flags, chunk, blocks)
  {
    hide Grown, FreeBlocks, Building;
    ghost var t, before, s := heap.entries[..], ram.frames, 0;
    NothingDrawn(t);
    var directory: Word;
    directory, s := KZallocFrame(heap, ram, t, {});
    assert {} + {s} == {s};
    assert Addresses(heap.saddr, {s}) == {directory};
    NothingBuilt(before, directory, flags);
    ghost var tables;
    tables, blocks := AddTables(heap, ram, directory, flags, t, before, s);
    ghost var u := heap.entries[..];
    var record;
    record, s := MallocOne(heap, 12, t, blocks);
    Assembled(t, u, heap.entries[..], heap.saddr, before, ram.frames, flags, directory, tables, blocks, s);
    blocks := blocks + {s};
    chunk := Chunk(record, directory);
  }

  // ----- releasing

  /** Address a is the start of a live run, so that heap_free accepts it. */
  ghost predicate HeapRun(live: map<nat, nat>, saddr: nat, a: nat) {
    saddr <= a < saddr + 0x8000_0000 && Aligned(a) && (a - saddr) / 4096 in live
  }

  ghost function BlockOf(saddr: nat, a: nat): int {
    (a - saddr) / 4096
  }

  ghost function Blocks(saddr: nat, s: set<nat>): set<int> {
    set a | a in s :: BlockOf(saddr, a)
  }

  ghost function TablesBelow(frames: Frames, d: nat, i: nat): set<nat>
    requires IsDirectory(frames, d) && i <= 1024
  {
    set j: nat | j < i :: TableAt(frames, d, j)
  }

  /** The live runs without those that start at an address in s. */
  ghost function Without(live: map<nat, nat>, saddr: nat, s: set<nat>): map<nat, nat> {
    map k | k in live && k !in Blocks(saddr, s) :: live[k]
  }

  lemma WithoutStep(live: map<nat, nat>, saddr: nat, s: set<nat>, a: nat)
    requires Aligned(saddr) && HeapRun(live, saddr, a) && a !in s
    requires forall b :: b in s ==> HeapRun(live, saddr, b)
    ensures BlockOf(saddr, a) in Without(live, saddr, s)
    ensures Without(live, saddr, s) - {BlockOf(saddr, a)} == Without(live, saddr, s + {a})
  {
    forall b | b in s
      ensures BlockOf(saddr, b) != BlockOf(saddr, a)
    {
      BlocksDiffer(live, saddr, a, b);
    }
    hide HeapRun, BlockOf;
    assert Blocks(saddr, s + {a}) == Blocks(saddr, s) + {BlockOf(saddr, a)};
  }

  lemma BlocksDiffer(live: map<nat, nat>, saddr: nat, a: nat, b: nat)
    requires Aligned(saddr) && HeapRun(live, saddr, a) && HeapRun(live, saddr, b) && a != b
    ensures BlockOf(saddr, a) != BlockOf(saddr, b)
  {}

  /** kfree of a page frame that is a live run. */
  method FreeFrame(heap: KernelHeap, a: nat, ghost live: map<nat, nat>, ghost gone: set<nat>) returns (halted: bool)
    requires heap.Valid() && Live(heap.entries[..]) == Without(live, heap.saddr, gone)
    requires a > 0 && a !in gone && HeapRun(live, heap.saddr, a)
    requires forall b :: b in gone ==> HeapRun(live, heap.saddr, b)
    modifies heap.entries
    ensures heap.Valid() && !halted
    ensures Live(heap.entries[..]) == Without(live, heap.saddr, gone + {a})
  {
    hide Without;
    ghost var t := heap.entries[..];
    WithoutStep(live, heap.saddr, gone, a);
    ReleaseRemovesRun(t, (a - heap.saddr) / 4096);
    halted := heap.KFree(a);
  }

  /** paging_free_4gb: returns the 1024 tables and the directory, and never trips heap_free's ASSERTs. */
  method Free4gb(heap: KernelHeap, ram: Ram, chunk: Chunk) returns (halted: bool)
    requires heap.Valid() && IsDirectory(ram.frames, chunk.directory)
    requires forall a :: a in Footprint(ram.frames, chunk.directory) ==>
                           a > 0 && HeapRun(Live(heap.entries[..]), heap.saddr, a)
    modifies heap.entries
    ensures heap.Valid() && !halted
    ensures Live(heap.entries[..]) ==
            Without(Live(old(heap.entries[..])), heap.saddr, Footprint(ram.frames, chunk.directory))
  {
    ghost var live := Live(heap.entries[..]);
    var d := chunk.directory;
    assert TablesBelow(ram.frames, d, 0) == {} && Without(live, heap.saddr, {}) == live;
    for i := 0 to 1024
      invariant heap.Valid() && Live(heap.entries[..]) == Without(live, heap.saddr, TablesBelow(ram.frames, d, i))
    {
      var entry := ram.frames[d][i];
      var table := PageOf(entry);
      TablesBelowStep(ram.frames, d, i);
      halted := FreeFrame(heap, table, live, TablesBelow(ram.frames, d, i));
    }
    TablesBelowAll(ram.frames, d);
    halted := FreeFrame(heap, d, live, TablesBelow(ram.frames, d, 1024));
  }

  lemma TablesBelowStep(frames: Frames, d: nat, i: nat)
    requires IsDirectory(frames, d) && i < 1024
    ensures TableAt(frames, d, i) !in TablesBelow(frames, d, i)
    ensures TablesBelow(frames, d, i) + {TableAt(frames, d, i)} == TablesBelow(frames, d, i + 1)
    ensures TablesBelow(frames, d, i + 1) <= Footprint(frames, d)
  {}

  lemma TablesBelowAll(frames: Frames, d: nat)
    requires IsDirectory(frames, d)
    ensures d !in TablesBelow(frames, d, 1024)
    ensures TablesBelow(frames, d, 1024) + {d} == Footprint(frames, d)
  {}

  /** Every frame of a new address space, found by unpacking the entries, is one that heap_free accepts. */
  lemma NewSpaceFreeable(t: Table, u: Table, saddr: nat, before: Frames, after: Frames, flags: Word,
                         chunk: Chunk, blocks: set<nat>, a: nat)
    requires Aligned(saddr) && saddr > 0 && |t| <= 0x8_0000
    requires NewSpace(t, u, saddr, before, after, flags, chunk, blocks) && a in Footprint(after, chunk.directory)
    ensures a > 0 && HeapRun(Live(u), saddr, a)
  {
    hide IsDirectory, SameElsewhere, Footprint, Flat;
    assert a in Addresses(saddr, blocks);
    var b :| b in blocks && a == saddr + 4096 * b;
    assert b in FreeBlocks(t);
  }

  /**
   Building an address space and releasing it leaves nothing but the block of the chunk record: the
   table is the one before, with one one-block run more.
   */
  lemma NewThenFree(t: Table, u: Table, v: Table, saddr: nat, before: Frames, after: Frames, flags: Word,
                    chunk: Chunk, blocks: set<nat>)
    requires NewSpace(t, u, saddr, before, after, flags, chunk, blocks)
    requires WellFormed(v) && |v| == |t| && Live(v) == Without(Live(u), saddr, Footprint(after, chunk.directory))
    ensures chunk.record >= saddr && FreeWindow(t, BlockOf(saddr, chunk.record), 1)
    ensures v == Take(t, BlockOf(saddr, chunk.record), 1)
  {
    hide IsDirectory, SameElsewhere, Footprint, Flat, Without, Singles;
    assert chunk.record in Addresses(saddr, blocks);
    var r :| r in blocks && chunk.record == saddr + 4096 * r;
    assert r in FreeBlocks(t);
    RecordLeft(t, u, saddr, Footprint(after, chunk.directory), blocks, r);
    TakeAddsRun(t, r, 1);
    LiveDeterminesTable(v, Take(t, r, 1));
  }

  lemma InOwnBlocks(saddr: nat, own: set<nat>, blocks: set<nat>, r: nat, k: nat)
    requires r in blocks && saddr + 4096 * r !in own
    requires own + {saddr + 4096 * r} == Addresses(saddr, blocks)
    ensures k in Blocks(saddr, own) <==> k in blocks && k != r
  {
    if k in Blocks(saddr, own) {
      var a :| a in own && k == BlockOf(saddr, a);
      assert a in Addresses(saddr, blocks);
    }
    if k in blocks && k != r {
      assert saddr + 4096 * k in Addresses(saddr, blocks);
      assert BlockOf(saddr, saddr + 4096 * k) == k;
    }
  }

  lemma RecordLeft(t: Table, u: Table, saddr: nat, own: set<nat>, blocks: set<nat>, r: nat)
    requires Grown(t, u, blocks) && r in blocks && saddr + 4096 * r !in own
    requires own + {saddr + 4096 * r} == Addresses(saddr, blocks)
    ensures Without(Live(u), saddr, own) == Live(t)[r := 1]
  {
    hide Blocks, Addresses, WellFormed;
    forall k: nat
      ensures k in Blocks(saddr, own) <==> k in blocks && k != r
    {
      InOwnBlocks(saddr, own, blocks, r, k);
    }
    forall k | k in Live(t)
      ensures k !in blocks
    {
      if k in blocks { FreeIsNotLive(t, k); }
    }
  }
}
