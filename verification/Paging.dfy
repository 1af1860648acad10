/**
 32-bit paging (src/memory/paging/paging.c): a directory of 1024 entries, each holding the address of
 a table of 1024 entries, both with flags packed into the low 12 bits (section 4.3 of the Intel SDM,
 volume 3A). Directories and tables live in page frames of physical memory.

 The two levels are refined to a flat map of 2^20 pages (Flat).
 */
module Paging {
  import opened Kernel
  import opened Bits
  import opened Heap

  const PRESENT: Word := 0x01
  const WRITEABLE: Word := 0x02
  const ACCESS_FROM_ALL: Word := 0x04
  const CACHE_DISABLED: Word := 0x10

  type Frame = s: seq<Word> | |s| == 1024 witness seq(1024, _ => 0)

  /** Physical memory, as far as paging looks at it: 1024 words per page frame, by frame address. */
  class Ram {
    var frames: map<nat, Frame>

    constructor ()
      ensures frames == map[]
    {
      frames := map[];
    }
  }

  type Frames = map<nat, Frame>

  type FlatMap = s: seq<Word> | |s| == 0x10_0000 witness seq(0x10_0000, _ => 0)

  function TableAt(frames: Frames, d: nat, i: nat): nat
    requires d in frames && i < 1024
  {
    PageOf(frames[d][i])
  }

  /** The 1024 table pointers of d lead to 1024 different frames, none of them d. */
  ghost predicate IsDirectory(frames: Frames, d: nat) {
    && d in frames
    && (forall i: nat :: i < 1024 ==> TableAt(frames, d, i) in frames && TableAt(frames, d, i) != d)
    && (forall i: nat, j: nat :: i < 1024 && j < 1024 && i != j ==> TableAt(frames, d, i) != TableAt(frames, d, j))
  }

  function Entry(frames: Frames, d: nat, p: nat): Word
    requires IsDirectory(frames, d) && p < 0x10_0000
  {
    frames[TableAt(frames, d, p / 1024)][p % 1024]
  }

  /** The flat view: the entry of each of the 2^20 pages. */
  ghost function Flat(frames: Frames, d: nat): (f: FlatMap)
    requires IsDirectory(frames, d)
  {
    seq(0x10_0000, p requires 0 <= p < 0x10_0000 => Entry(frames, d, p))
  }

  /** The frames a directory is made of. */
  ghost function Footprint(frames: Frames, d: nat): (s: set<nat>)
    requires IsDirectory(frames, d)
  {
    {d} + set i: nat | i < 1024 :: TableAt(frames, d, i)
  }

  function Poke(frames: Frames, a: nat, k: nat, val: Word): Frames
    requires a in frames && k < 1024
  {
    frames[a := frames[a][k := val]]
  }

  /** Writing one table entry changes one page of that directory and nothing of the others. */
  lemma PokeFlat(frames: Frames, d: nat, p: nat, val: Word)
    requires IsDirectory(frames, d) && p < 0x10_0000
    ensures var after := Poke(frames, TableAt(frames, d, p / 1024), p % 1024, val);
            && IsDirectory(after, d)
            && Footprint(after, d) == Footprint(frames, d)
            && Flat(after, d) == Flat(frames, d)[p := val]
  {
    var after := Poke(frames, TableAt(frames, d, p / 1024), p % 1024, val);
    assert forall i: nat :: i < 1024 ==> TableAt(after, d, i) == TableAt(frames, d, i);
    forall q: nat | q < 0x10_0000
      ensures Entry(after, d, q) == if q == p then val else Entry(frames, d, q)
    {
      assert q == 1024 * (q / 1024) + q % 1024;
    }
  }

  /** Outside the frames in s, memory is the same. */
  ghost predicate SameOutside(before: Frames, after: Frames, s: set<nat>) {
    after.Keys == before.Keys && forall a :: a in before && a !in s ==> after[a] == before[a]
  }

  /** A directory none of whose frames changed still maps the same pages. */
  lemma FlatFrame(before: Frames, after: Frames, d: nat)
    requires IsDirectory(before, d)
    requires forall a :: a in Footprint(before, d) ==> a in after && after[a] == before[a]
    ensures IsDirectory(after, d) && Footprint(after, d) == Footprint(before, d)
    ensures Flat(after, d) == Flat(before, d)
  {
    assert forall i: nat :: i < 1024 ==> TableAt(before, d, i) in Footprint(before, d);
    assert forall i: nat :: i < 1024 ==> TableAt(after, d, i) == TableAt(before, d, i);
  }

  /** From before to after only d's tables changed, d kept its frames and its own entries, and d now maps g. */
  ghost predicate Remaps(before: Frames, after: Frames, d: nat, g: FlatMap)
    requires IsDirectory(before, d)
  {
    && SameOutside(before, after, Footprint(before, d)) && d in after && after[d] == before[d]
    && IsDirectory(after, d) && Footprint(after, d) == Footprint(before, d)
    && Flat(after, d) == g
  }

  /** paging_get_indexes */
  method GetIndexes(virt: Word) returns (res: int, directoryIndex: nat, tableIndex: nat)
    ensures res == 0 <==> Aligned(virt)
    ensures res == 0 || res == -EINVARG
    ensures res == 0 ==> directoryIndex == virt / 4096 / 1024 && tableIndex == virt / 4096 % 1024
    ensures res == 0 ==> directoryIndex < 1024
  {
    directoryIndex, tableIndex := 0, 0;
    if virt % 4096 != 0 {
      return -EINVARG, directoryIndex, tableIndex;
    }
    directoryIndex := virt / (1024 * 4096);
    tableIndex := virt % (1024 * 4096) / 4096;
    res := 0;
  }

  /** paging_set */
  method Set(ram: Ram, d: nat, virt: Word, val: Word) returns (res: int)
    requires IsDirectory(ram.frames, d)
    modifies ram
    ensures res == if Aligned(virt) then 0 else -EINVARG
    ensures Remaps(old(ram.frames), ram.frames, d,
                   if Aligned(virt) then Flat(old(ram.frames), d)[virt / 4096 := val] else Flat(old(ram.frames), d))
  {
    if virt % 4096 != 0 {
      return -EINVARG;
    }
    var directoryIndex, tableIndex;
    res, directoryIndex, tableIndex := GetIndexes(virt);
    if res < 0 {
      return;
    }
    PokeFlat(ram.frames, d, virt / 4096, val);
    var entry := ram.frames[d][directoryIndex];
    var table := PageOf(entry);
    ram.frames := Poke(ram.frames, table, tableIndex, val);
    res := 0;
  }

  /** paging_get: the entry, or halted when virt is not aligned. */
  method Get(ram: Ram, d: nat, virt: Word) returns (r: Outcome<Word>)
    requires IsDirectory(ram.frames, d)
    ensures r == if Aligned(virt) then Done(Flat(ram.frames, d)[virt / 4096]) else Halted
  {
    if virt % 4096 != 0 {
      return Halted;
    }
    var res, directoryIndex, tableIndex := GetIndexes(virt);
    assert TableAt(ram.frames, d, directoryIndex) in ram.frames;
    var table := PageOf(ram.frames[d][directoryIndex]);
    return Done(ram.frames[table][tableIndex]);
  }

  /** paging_map */
  method Map(ram: Ram, d: nat, virt: Word, phys: Word, flags: Word) returns (res: int)
    requires IsDirectory(ram.frames, d)
    modifies ram
    ensures res == if Aligned(virt) && Aligned(phys) then 0 else -EINVARG
    ensures Remaps(old(ram.frames), ram.frames, d,
                   if res == 0 then Flat(old(ram.frames), d)[virt / 4096 := Or32(phys, flags)]
                   else Flat(old(ram.frames), d))
  {
    if virt % 4096 != 0 || phys % 4096 != 0 {
      return -EINVARG;
    }
    res := Set(ram, d, virt, Or32(phys, flags));
  }

  /** How far page q lies above page p, going round at 4 GB. */
  function PagesAbove(q: nat, p: nat): nat {
    (q - p) % 0x10_0000
  }

  ghost function MappedEntry(f: FlatMap, vp: nat, pp: nat, count: nat, flags: Word, q: nat): Word
    requires q < 0x10_0000
  {
    if PagesAbove(q, vp) < count then Or32((pp + PagesAbove(q, vp)) % 0x10_0000 * 4096, flags) else f[q]
  }

  /** The flat map after count pages from vp on map to the pages from pp on; both wrap at 4 GB. */
  ghost function Mapped(f: FlatMap, vp: nat, pp: nat, count: nat, flags: Word): (g: FlatMap)
    ensures forall q: nat :: q < 0x10_0000 ==> g[q] == MappedEntry(f, vp, pp, count, flags, q)
  {
    seq(0x10_0000, q requires 0 <= q < 0x10_0000 => MappedEntry(f, vp, pp, count, flags, q))
  }

  lemma PagesAboveInverse(q: nat, vp: nat, i: nat)
    requires q < 0x10_0000 && vp < 0x10_0000 && i < 0x10_0000
    ensures PagesAbove(q, vp) == i <==> q == (vp + i) % 0x10_0000
  {
    if q >= vp {
      assert PagesAbove(q, vp) == q - vp;
    } else {
      assert PagesAbove(q, vp) == q - vp + 0x10_0000;
    }
    assert (vp + i) % 0x10_0000 == if vp + i < 0x10_0000 then vp + i else vp + i - 0x10_0000;
  }

  lemma MappedStep(f: FlatMap, vp: nat, pp: nat, i: nat, flags: Word)
    requires vp < 0x10_0000 && i < 0x10_0000
    ensures Mapped(f, vp, pp, i + 1, flags) ==
            Mapped(f, vp, pp, i, flags)[(vp + i) % 0x10_0000 := Or32((pp + i) % 0x10_0000 * 4096, flags)]
  {
    forall q: nat | q < 0x10_0000
      ensures MappedEntry(f, vp, pp, i + 1, flags, q) ==
              if q == (vp + i) % 0x10_0000 then Or32((pp + i) % 0x10_0000 * 4096, flags)
              else MappedEntry(f, vp, pp, i, flags, q)
    {
      PagesAboveInverse(q, vp, i);
    }
  }

  /** A pointer after i page-sized steps. */
  ghost function Advance(base: Word, i: nat): Word {
    (base + 4096 * i) % WORD
  }

  lemma Wrap(x: nat, m: nat)
    requires 0 < m && x < 2 * m
    ensures x % m == if x < m then x else x - m
  {
    if x >= m {
      assert x == 1 * m + (x - m);
    }
  }

  lemma AdvanceOnce(base: Word, i: nat)
    requires i < 0x10_0000
    ensures Advance(base, i + 1) == (Advance(base, i) + 4096) % WORD
  {
    Wrap(base + 4096 * i, WORD);
    Wrap(base + 4096 * (i + 1), WORD);
    Wrap(Advance(base, i) + 4096, WORD);
  }

  lemma AdvanceAligned(base: Word, i: nat)
    requires i < 0x10_0000
    ensures Aligned(base) <==> Aligned(Advance(base, i))
  {
    Wrap(base + 4096 * i, WORD);
  }

  lemma AdvancePage(base: Word, i: nat)
    requires i < 0x10_0000
    ensures Aligned(base) ==> Advance(base, i) == (base / 4096 + i) % 0x10_0000 * 4096
    ensures Aligned(base) ==> Advance(base, i) / 4096 == (base / 4096 + i) % 0x10_0000
  {
    Wrap(base + 4096 * i, WORD);
    Wrap(base / 4096 + i, 0x10_0000);
  }

  lemma RangeStep(before: Frames, mid: Frames, after: Frames, d: nat, virt: Word, phys: Word, i: nat, flags: Word)
    requires IsDirectory(before, d) && IsDirectory(mid, d) && i < 0x10_0000 && Aligned(virt) && Aligned(phys)
    requires Remaps(before, mid, d, Mapped(Flat(before, d), virt / 4096, phys / 4096, i, flags))
    requires Remaps(mid, after, d, Flat(mid, d)[Advance(virt, i) / 4096 := Or32(Advance(phys, i), flags)])
    ensures Remaps(before, after, d, Mapped(Flat(before, d), virt / 4096, phys / 4096, i + 1, flags))
  {
    hide Or32, Mapped, MappedEntry, Advance, Flat, IsDirectory, Footprint;
    AdvancePage(virt, i);
    AdvancePage(phys, i);
    MappedStep(Flat(before, d), virt / 4096, phys / 4096, i, flags);
  }

  lemma RangeStart(frames: Frames, d: nat, virt: Word, phys: Word, flags: Word)
    requires IsDirectory(frames, d)
    ensures Mapped(Flat(frames, d), virt / 4096, phys / 4096, 0, flags) == Flat(frames, d)
    ensures Advance(virt, 0) == virt && Advance(phys, 0) == phys
  {}

  lemma RemapsNothing(frames: Frames, d: nat)
    requires IsDirectory(frames, d)
    ensures Remaps(frames, frames, d, Flat(frames, d))
  {}

  lemma RemapsDirectory(before: Frames, after: Frames, d: nat, g: FlatMap)
    requires IsDirectory(before, d) && Remaps(before, after, d, g)
    ensures IsDirectory(after, d) && Flat(after, d) == g
  {}

  /** paging_map_range */
  method MapRange(ram: Ram, d: nat, virt: Word, phys: Word, count: nat, flags: Word) returns (res: int)
    requires IsDirectory(ram.frames, d) && count <= 0x10_0000
    modifies ram
    ensures res == if count == 0 || (Aligned(virt) && Aligned(phys)) then 0 else -EINVARG
    ensures Remaps(old(ram.frames), ram.frames, d,
                   if res == 0 then Mapped(Flat(old(ram.frames), d), virt / 4096, phys / 4096, count, flags)
                   else Flat(old(ram.frames), d))
  {
    hide Flat, IsDirectory, Advance, Or32, Mapped, Remaps;
    res := 0;
    var v: Word, p: Word := virt, phys;
    ghost var before, f := ram.frames, Flat(ram.frames, d);
    RangeStart(before, d, virt, phys, flags);
    RemapsNothing(before, d);
    for i := 0 to count
      invariant IsDirectory(ram.frames, d)
      invariant Remaps(before, ram.frames, d, Mapped(f, virt / 4096, phys / 4096, i, flags))
      invariant v == Advance(virt, i) && p == Advance(phys, i)
      invariant res == 0 && if i > 0 then Aligned(virt) && Aligned(phys) else ram.frames == before
    {
      AdvanceAligned(virt, i);
      AdvanceAligned(phys, i);
      ghost var mid := ram.frames;
      res := Map(ram, d, v, p, flags);
      RemapsDirectory(mid, ram.frames, d,
                      if res == 0 then Flat(mid, d)[v / 4096 := Or32(p, flags)] else Flat(mid, d));
      if res < 0 {
        break;
      }
      RangeStep(before, mid, ram.frames, d, virt, phys, i, flags);
      AdvanceOnce(virt, i);
      AdvanceOnce(phys, i);
      v, p := (v + 4096) % WORD, (p + 4096) % WORD;
    }
  }

  /** paging_map_to: halted when one of its ASSERTs fails. */
  method MapTo(ram: Ram, d: nat, virt: Word, phys: Word, physEnd: Word, flags: Word) returns (r: Outcome<int>)
    requires IsDirectory(ram.frames, d)
    modifies ram
    ensures r == if Aligned(virt) && Aligned(phys) && Aligned(physEnd) && phys < physEnd then Done(0) else Halted
    ensures Remaps(old(ram.frames), ram.frames, d,
                   if r.Halted? then Flat(old(ram.frames), d)
                   else Mapped(Flat(old(ram.frames), d), virt / 4096, phys / 4096, (physEnd - phys) / 4096, flags))
  {
    if !(Aligned(virt) && Aligned(phys) && Aligned(physEnd) && physEnd > phys) {
      return Halted;
    }
    var totalPages := (physEnd - phys) / 4096;
    var res := MapRange(ram, d, virt, phys, totalPages, flags);
    return Done(res);
  }

  /** What an address translates to under a flat map. */
  ghost function Translate(f: FlatMap, virt: Word): Word {
    (PageOf(f[virt / 4096]) + virt % 4096) % WORD
  }

  /** paging_get_physical_address */
  method GetPhysicalAddress(ram: Ram, d: nat, virt: Word) returns (r: Outcome<Word>)
    requires IsDirectory(ram.frames, d)
    ensures r == Done(Translate(Flat(ram.frames, d), virt))
  {
    var lower: Word := virt - virt % 4096;
    var difference := virt - lower;
    var entry := Get(ram, d, lower);
    assert lower / 4096 == virt / 4096;
    return Done((PageOf(entry.value) + difference) % WORD);
  }

  /** The page walk itself, from the address to the two entries it meets (section 4.3 of the Intel SDM, volume 3A). */
  lemma WalkTranslates(frames: Frames, d: nat, a: Word)
    requires IsDirectory(frames, d)
    ensures var e := frames[d][a / 0x40_0000];
            && e - e % 4096 in frames
            && var f := frames[e - e % 4096][a / 4096 % 1024];
               Flat(frames, d)[a / 4096] == f && Translate(Flat(frames, d), a) == f - f % 4096 + a % 4096
  {
    assert a / 4096 / 1024 == a / 0x40_0000;
    assert TableAt(frames, d, a / 0x40_0000) in frames;
  }

  // ----- access by both levels

  /** Every directory entry is present, writeable and user-accessible, so that the tables decide. */
  ghost predicate OpenDirectory(frames: Frames, d: nat) {
    d in frames && forall i: nat :: i < 1024 ==> IsOpen(frames[d][i])
  }

  predicate IsOpen(entry: Word) {
    And(entry, 0x01) != 0 && And(entry, 0x02) != 0 && And(entry, 0x04) != 0
  }

  /** User code reads address a without a fault: both entries of the walk are present and user-accessible. */
  ghost predicate UserReads(frames: Frames, d: nat, a: Word)
    requires IsDirectory(frames, d)
  {
    var e := frames[d][a / 0x40_0000];
    e % 2 == 1 && e / 4 % 2 == 1 && e - e % 4096 in frames &&
    var f := frames[e - e % 4096][a / 4096 % 1024]; f % 2 == 1 && f / 4 % 2 == 1
  }

  /** And writes it: they are both writeable, too. */
  ghost predicate UserWrites(frames: Frames, d: nat, a: Word)
    requires IsDirectory(frames, d)
  {
    UserReads(frames, d, a) &&
    var e := frames[d][a / 0x40_0000]; e / 2 % 2 == 1 && frames[e - e % 4096][a / 4096 % 1024] / 2 % 2 == 1
  }

  /** Behind an open directory the flat map decides about access. */
  lemma FlatDecides(frames: Frames, d: nat, a: Word)
    requires IsDirectory(frames, d) && OpenDirectory(frames, d)
    ensures var entry := Flat(frames, d)[a / 4096];
            && (UserReads(frames, d, a) <==> And(entry, 0x01) != 0 && And(entry, 0x04) != 0)
            && (UserWrites(frames, d, a) <==> IsOpen(entry))
  {
    hide And, Flat, IsDirectory;
    WalkTranslates(frames, d, a);
    assert IsOpen(frames[d][a / 0x40_0000]);
    FlagBits(frames[d][a / 0x40_0000]);
    FlagBits(Flat(frames, d)[a / 4096]);
  }

  /** Remapping keeps a directory open. */
  lemma RemapsOpen(before: Frames, after: Frames, d: nat, g: FlatMap)
    requires IsDirectory(before, d) && OpenDirectory(before, d) && Remaps(before, after, d, g)
    ensures OpenDirectory(after, d)
  {}

  lemma TranslatePacked(g: FlatMap, v: Word, base: Word, flags: Word)
    requires Aligned(base) && flags < 4096 && g[v / 4096] == Or32(base, flags)
    ensures Translate(g, v) == base + v % 4096
  {
    hide Or32;
    Packing(base, flags);
  }

  lemma PhysicalPage(phys: Word, k: nat)
    requires Aligned(phys) && phys + k < WORD
    ensures (phys / 4096 + k / 4096) % 0x10_0000 * 4096 == phys + k / 4096 * 4096
  {}

  /**
   After paging_map_to every address of the range translates to its own physical address, and no page
   outside the range has changed. The virtual range may run over the top of the address space.
   */
  lemma MapToTranslates(f: FlatMap, virt: Word, phys: Word, physEnd: Word, flags: Word, k: nat)
    requires Aligned(virt) && Aligned(phys) && Aligned(physEnd) && phys < physEnd && flags < 4096
    requires k < WORD
    ensures var g := Mapped(f, virt / 4096, phys / 4096, (physEnd - phys) / 4096, flags);
            var v := (virt + k) % WORD;
            if k < physEnd - phys then Translate(g, v) == phys + k else g[v / 4096] == f[v / 4096]
  {
    hide Or32, Mapped, PagesAbove, Translate;
    var v := (virt + k) % WORD;
    PageOfOffset(virt, k);
    if k < physEnd - phys {
      PhysicalPage(phys, k);
      TranslatePacked(Mapped(f, virt / 4096, phys / 4096, (physEnd - phys) / 4096, flags),
                      v, phys + k / 4096 * 4096, flags);
    }
  }

  lemma PageOfOffset(virt: Word, k: nat)
    requires Aligned(virt) && k < WORD
    ensures var v := (virt + k) % WORD; PagesAbove(v / 4096, virt / 4096) == k / 4096 && v % 4096 == k % 4096
  {
    var vp, i, o := virt / 4096, k / 4096, k % 4096;
    assert virt + k == 4096 * (vp + i) + o;
    if vp + i < 0x10_0000 {
    } else {
      assert (virt + k) % WORD == 4096 * (vp + i - 0x10_0000) + o;
    }
  }
}
