/**
 The calls of src/task/process.c on real memory: slot arrays updated in place, page tables written
 through the directory, the heap table shared by all. Each is tied to the State of ProcessMemory.
 */
module ProcessCalls {
  import opened Kernel
  import opened Bits
  import opened Heap
  import opened Paging
  import opened PageDirectories
  import opened ProcessMemory

  /** struct process, as far as memory goes: its page directory and its allocation slots. */
  class Process {
    const directory: nat
    const allocations: array<nat>

    constructor (directory: nat, allocations: array<nat>)
      ensures this.directory == directory && this.allocations == allocations
    {
      this.directory, this.allocations := directory, allocations;
    }
  }

  /** process_get_free_heap_allocation_slot: the first slot holding null, or -1. */
  method GetFreeSlot(allocations: array<nat>) returns (i: int)
    ensures i == match FreeSlot(allocations[..]) case None => -1 case Some(j) => j
  {
    i := 0;
    while i < allocations.Length
      invariant 0 <= i <= allocations.Length
      invariant forall j :: 0 <= j < i ==> allocations[j] != 0
    {
      if allocations[i] == 0 {
        return;
      }
      i := i + 1;
    }
    i := -1;
  }

  /** Directories as paging_new_4gb makes them, at the addresses in dirs, no two of them sharing a frame. */
  ghost predicate Directories(frames: Frames, dirs: seq<nat>) {
    && (forall p :: 0 <= p < |dirs| ==> IsDirectory(frames, dirs[p]) && OpenDirectory(frames, dirs[p]))
    && (forall p, q :: 0 <= p < q < |dirs| ==> Footprint(frames, dirs[p]) !! Footprint(frames, dirs[q]))
  }

  ghost function AllMaps(frames: Frames, dirs: seq<nat>): (maps: seq<FlatMap>)
    requires Directories(frames, dirs)
    ensures |maps| == |dirs| && forall p :: 0 <= p < |dirs| ==> maps[p] == Flat(frames, dirs[p])
  {
    seq(|dirs|, p requires 0 <= p < |dirs| => Flat(frames, dirs[p]))
  }

  /** Remapping one directory leaves the maps of all other processes alone. */
  lemma RemapOne(before: Frames, after: Frames, dirs: seq<nat>, p: nat, g: FlatMap)
    requires Directories(before, dirs) && p < |dirs| && Remaps(before, after, dirs[p], g)
    ensures Directories(after, dirs)
    ensures AllMaps(after, dirs) == AllMaps(before, dirs)[p := g]
  {
    forall q: nat | q < |dirs| && q != p
      ensures IsDirectory(after, dirs[q]) && Footprint(after, dirs[q]) == Footprint(before, dirs[q])
      ensures Flat(after, dirs[q]) == Flat(before, dirs[q])
    {
      assert Footprint(before, dirs[p]) !! Footprint(before, dirs[q]);
      FlatFrame(before, after, dirs[q]);
    }
  }

  /** The kernel heap, physical memory and the processes that share them. */
  class System {
    const heap: KernelHeap
    const ram: Ram
    const procs: seq<Process>

    constructor (heap: KernelHeap, ram: Ram, procs: seq<Process>)
      ensures this.heap == heap && this.ram == ram && this.procs == procs
    {
      this.heap, this.ram, this.procs := heap, ram, procs;
    }

    ghost function SlotArrays(): set<object> {
      set p | p in procs :: p.allocations
    }

    ghost function Dirs(): seq<nat> {
      seq(|procs|, p requires 0 <= p < |procs| => procs[p].directory)
    }

    ghost predicate Valid()
      reads heap.entries, ram
    {
      && heap.Valid() && HeapAt(heap.saddr, heap.entries.Length)
      && heap.entries as object !in SlotArrays()
      && (forall p, q :: 0 <= p < q < |procs| ==> procs[p].allocations != procs[q].allocations)
      && Directories(ram.frames, Dirs())
    }

    ghost function AllSlots(): (slots: seq<seq<nat>>)
      reads SlotArrays()
      ensures |slots| == |procs| && forall p :: 0 <= p < |procs| ==> slots[p] == procs[p].allocations[..]
    {
      seq(|procs|, p requires 0 <= p < |procs| reads SlotArrays() => procs[p].allocations[..])
    }

    ghost function Abstract(): State
      requires Valid()
      reads heap.entries, ram, SlotArrays()
    {
      State(heap.entries[..], AllSlots(), AllMaps(ram.frames, Dirs()))
    }

    /** process_malloc from state s to state u returns r, as MallocStep says, or halts. */
    static ghost predicate MallocReturns(s: State, u: State, saddr: nat, p: nat, size: int, kernelPage: bool,
                                         r: Outcome<nat>)
      requires p < |s.slots| == |s.maps|
    {
      if !kernelPage || MallocStep(s, saddr, p, size).Halted? then r == Halted && u == s
      else r.Done? && MallocStep(s, saddr, p, size) == Done((u, r.value))
    }

    /** The part of process_malloc after kmalloc: record the pointer and map its pages. */
    method RecordAndMap(p: nat, slot: nat, ptr: Word, bytes: Word)
      requires Valid() && p < |procs| && slot < procs[p].allocations.Length
      requires Aligned(ptr) && Aligned(AlignUp((ptr + bytes) % WORD)) && ptr < AlignUp((ptr + bytes) % WORD)
      modifies ram, procs[p].allocations
      ensures Valid()
      ensures var n := (AlignUp((ptr + bytes) % WORD) - ptr) / 4096;
              AllSlots() == old(AllSlots())[p := Record(old(AllSlots())[p], slot, ptr)] &&
              AllMaps(ram.frames, Dirs()) == old(AllMaps(ram.frames, Dirs()))[
                p := Mapped(old(AllMaps(ram.frames, Dirs()))[p], ptr / 4096, ptr / 4096, n, USER_FLAGS)]
    {
      hide Remaps, Mapped, AlignUp;
      var process := procs[p];
      assert Dirs()[p] == process.directory;
      ghost var before, n := ram.frames, (AlignUp((ptr + bytes) % WORD) - ptr) / 4096;
      ghost var g := Mapped(Flat(before, process.directory), ptr / 4096, ptr / 4096, n, USER_FLAGS);
      process.allocations[slot] := ptr;
      var end := AlignUp((ptr + bytes) % WORD);
      var res := MapTo(ram, process.directory, ptr, ptr, end, USER_FLAGS);
      RemapOne(before, ram.frames, Dirs(), p, g);
    }

    /** process_malloc; halted off the kernel page and when the heap halts. */
    method Malloc(p: nat, size: int, kernelPage: bool) returns (r: Outcome<nat>)
      requires Valid() && p < |procs|
      modifies heap.entries, ram, procs[p].allocations
      ensures Valid()
      ensures MallocReturns(old(Abstract()), Abstract(), heap.saddr, p, size, kernelPage, r)
    {
      hide Directories, WellFormed, AllMaps, HeapAt, FreeSlot, MallocStep, IntoReturns;
      ghost var before := Abstract();
      if !kernelPage {
        return Halted;
      }
      var slot := GetFreeSlot(procs[p].allocations);
      assert before.slots[p] == procs[p].allocations[..];
      if slot < 0 {
        NoSlotStep(before, heap.saddr, p, size);
        return Done(0);
      }
      r := MallocInto(p, slot, size % WORD);
      IntoStep(before, Abstract(), heap.saddr, p, slot, size, r);
    }

    /** What the call does from state s once a free slot is known. */
    static ghost predicate IntoReturns(s: State, u: State, saddr: nat, p: nat, slot: nat, bytes: Word, r: Outcome<nat>)
      requires p < |s.slots| == |s.maps| && slot < |s.slots[p]|
    {
      var n := BlocksFor(bytes);
      match Allocate(s.table, n)
      case NoMemory => r == Done(0) && u == s
      case Stop => r == Halted && u == s
      case Block(b) =>
        var ptr := saddr + 4096 * b;
        && r == Done(ptr)
        && u == State(Take(s.table, b, n), s.slots[p := Record(s.slots[p], slot, ptr)],
                      s.maps[p := Mapped(s.maps[p], ptr / 4096, ptr / 4096, n, USER_FLAGS)])
    }

    static lemma NoSlotStep(s: State, saddr: nat, p: nat, size: int)
      requires p < |s.slots| == |s.maps| && FreeSlot(s.slots[p]).None?
      ensures MallocStep(s, saddr, p, size) == Done((s, 0))
    {}

    static lemma IntoStep(s: State, u: State, saddr: nat, p: nat, slot: nat, size: int, r: Outcome<nat>)
      requires p < |s.slots| == |s.maps| && slot < |s.slots[p]| && FreeSlot(s.slots[p]) == Some(slot)
      requires IntoReturns(s, u, saddr, p, slot, size % WORD, r)
      ensures MallocReturns(s, u, saddr, p, size, true, r)
    {
      hide Mapped, Record, Take, BlocksFor, Allocate, FreeSlot;
      AllocatedFits(s.table, BlocksFor(size % WORD));
    }

    /** process_malloc once a free slot is known. */
    method MallocInto(p: nat, slot: nat, bytes: Word) returns (r: Outcome<nat>)
      requires Valid() && p < |procs| && slot < procs[p].allocations.Length
      modifies heap.entries, ram, procs[p].allocations
      ensures Valid()
      ensures IntoReturns(old(Abstract()), Abstract(), heap.saddr, p, slot, bytes, r)
    {
      hide Directories, WellFormed, Mapped, AlignUp, BlocksFor, AllMaps, Record, Allocate;
      ghost var before := Abstract();
      ghost var a := Allocate(heap.entries[..], BlocksFor(bytes));
      var m := heap.Malloc(bytes);
      assert AllSlots() == before.slots;
      if m.Halted? || m.value == 0 {
        return m;
      }
      EndOfRun(heap.saddr, a.start, bytes);
      RecordAndMap(p, slot, m.value, bytes);
      return m;
    }

    /**
     process_free_allocations: every recorded run goes back to the heap and nothing else does. The
     slots themselves are not cleared; the process structure is freed right after.
     */
    method FreeAllocations(p: nat) returns (halted: bool)
      requires Valid() && p < |procs|
      requires Recorded(Live(heap.entries[..]), heap.saddr, procs[p].allocations[..])
      requires Distinct([procs[p].allocations[..]])
      modifies heap.entries
      ensures Valid() && !halted
      ensures Live(heap.entries[..]) ==
              Without(Live(old(heap.entries[..])), heap.saddr, Pointers(procs[p].allocations[..]))
    {
      hide Directories, WellFormed, Distinct;
      halted := false;
      var allocations := procs[p].allocations;
      ghost var live, slots := Live(heap.entries[..]), allocations[..];
      assert Pointers(slots[..0]) == {} && Without(live, heap.saddr, {}) == live;
      for i := 0 to allocations.Length
        invariant Valid() && !halted && allocations[..] == slots
        invariant Live(heap.entries[..]) == Without(live, heap.saddr, Pointers(slots[..i]))
      {
        PointersStep(slots, i);
        if allocations[i] != 0 {
          forall a | a in Pointers(slots[..i])
            ensures HeapRun(live, heap.saddr, a)
          {
            assert a in slots;
          }
          halted := FreeFrame(heap, allocations[i], live, Pointers(slots[..i]));
        }
      }
      assert slots[..allocations.Length] == slots;
    }
  }

  /**
   What user code of process p can touch, by the page walk through its directory: over every interleaving it can read
   and write every address in its own live runs, where that address is also the physical one; besides those it can
   read exactly what the kernel has mapped for it to read.
   */
  lemma TouchesExactly(frames: Frames, dirs: seq<nat>, s: State, saddr: nat, ops: seq<Op>, after: State, p: nat,
                       a: Word)
    requires Started(s) && HeapAt(saddr, |s.table|) && p < |s.slots|
    requires (StartedInv(s, saddr); Reaches(s.maps, s, saddr, ops, after))
    requires Directories(frames, dirs) && after.maps == AllMaps(frames, dirs)
    ensures p < |dirs| && |after.slots| == |s.slots| && WellFormed(after.table)
    ensures var own := OwnsPage(Live(after.table), saddr, after.slots[p], a / 4096);
            var base := BasesAfter(s.maps, ops)[p][a / 4096];
            && (own ==> UserReads(frames, dirs[p], a) && UserWrites(frames, dirs[p], a))
            && (own ==> Translate(Flat(frames, dirs[p]), a) == a)
            && (!own ==> (UserReads(frames, dirs[p], a) <==> UserAccessible(base)))
            && (!own ==> (UserWrites(frames, dirs[p], a) <==> IsOpen(base)))
  {
    hide And, Reaches, BasesAfter, OwnsPage, Live, WellFormed, IsDirectory, Flat, UserReads, UserWrites, OpenDirectory;
    AccessibleExactly(s, saddr, ops, after, p, a / 4096);
    FlatDecides(frames, dirs[p], a);
  }

  lemma PointersStep(slots: seq<nat>, i: nat)
    requires i < |slots| && Distinct([slots])
    ensures Pointers(slots[..i + 1]) == Pointers(slots[..i]) + (if slots[i] == 0 then {} else {slots[i]})
    ensures slots[i] != 0 ==> slots[i] !in Pointers(slots[..i])
  {
    assert slots[..i + 1] == slots[..i] + [slots[i]];
    forall j: nat | j < i && slots[j] != 0
      ensures slots[j] != slots[i]
    {
      var one := [slots];
      assert one[0][j] != one[0][i];
    }
  }

  /** paging_align_address(ptr + size) is the end of the run malloc returned. */
  lemma EndOfRun(saddr: nat, b: nat, bytes: nat)
    requires Aligned(saddr) && bytes < WORD && BlocksFor(bytes) >= 1 && saddr + 4096 * (b + BlocksFor(bytes)) < WORD
    ensures var ptr := saddr + 4096 * b;
            var end := AlignUp((ptr + bytes) % WORD);
            && Aligned(ptr) && Aligned(end) && ptr < end && (end - ptr) / 4096 == BlocksFor(bytes)
  {
    hide AlignUp, BlocksFor, Aligned;
    var n := BlocksFor(bytes);
    var ptr := saddr + 4096 * b;
    PagesOn(saddr, b);
    PagesOn(saddr, b + n);
    SizeOf(bytes);
    assert (ptr + bytes) % WORD == ptr + bytes;
    SamePage(AlignUp(ptr + bytes), saddr + 4096 * (b + n));
  }

  lemma SizeOf(bytes: nat)
    requires bytes < WORD && BlocksFor(bytes) >= 1
    ensures 4096 * BlocksFor(bytes) - 4096 < bytes <= 4096 * BlocksFor(bytes) && bytes <= WORD - 4096
  {}

  lemma PagesOn(saddr: nat, n: nat)
    ensures Aligned(saddr) ==> Aligned(saddr + 4096 * n)
  {}

  lemma SamePage(x: nat, y: nat)
    requires Aligned(x) && Aligned(y) && x < y + 4096 && y < x + 4096
    ensures x == y
  {}
}
