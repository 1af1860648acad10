/**
 Memory of user processes: process_malloc and process_free_allocations (src/task/process.c), which tie
 together the heap, the page directory of each process and its table of allocations.

 The heap, all slot tables and all flat maps are refined to one State; the theorems are about every
 interleaving of calls by several processes and by the kernel itself.
 */
module ProcessMemory {
  import opened Kernel
  import opened Bits
  import opened Heap
  import opened Paging
  import opened PageDirectories

  // PAGING_ACCESS_FROM_ALL | PAGING_CACHE_DISABLED | PAGING_PAGE_WRITEABLE | PAGING_PAGE_PRESENT
  const USER_FLAGS: Word := 0x17

  /** The heap table, and per process its allocation slots (0 when free) and its flat map. */
  datatype State = State(table: Table, slots: seq<seq<nat>>, maps: seq<FlatMap>)

  /**
   KernelMap is what the kernel maps into a process on its own account: video memory, the program, its stack,
   the sections of libraries (src/task/task.c:452-464, src/task/process.c:309-398, src/loader/library.c:122-160).
   After Exit the place p is the next process's, which starts with the map next (src/task/process.c:709-718).
   */
  datatype Op =
    | ProcessMalloc(p: nat, size: int)
    | KernelMalloc(bytes: nat)
    | KernelFree(ptr: nat)
    | KernelMap(p: nat, vp: nat, pp: nat, count: nat, flags: Word)
    | Exit(p: nat, next: FlatMap)

  /** process_get_free_heap_allocation_slot */
  function FreeSlot(slots: seq<nat>): (r: Option<nat>)
    ensures r.Some? ==> r.value < |slots| && slots[r.value] == 0 && forall j :: 0 <= j < r.value ==> slots[j] != 0
    ensures r.None? ==> 0 !in slots
  {
    if slots == [] then None
    else if slots[0] == 0 then Some(0)
    else
      match FreeSlot(slots[1..])
      case None => None
      case Some(j) => assert forall k :: 0 < k <= j ==> slots[k] == slots[1..][k - 1]; Some(j + 1)
  }

  function Record(slots: seq<nat>, i: nat, ptr: nat): (r: seq<nat>)
    requires i < |slots|
    ensures |r| == |slots| && forall j :: 0 <= j < |slots| ==> r[j] == if j == i then ptr else slots[j]
  {
    slots[i := ptr]
  }

  /** What process_malloc does: the state after it and the pointer it returns. */
  ghost function MallocStep(s: State, saddr: nat, p: nat, size: int): Outcome<(State, nat)>
    requires p < |s.slots| == |s.maps|
  {
    var n := BlocksFor(size % WORD);
    match FreeSlot(s.slots[p])
    case None => Done((s, 0))
    case Some(i) =>
      match Allocate(s.table, n)
      case NoMemory => Done((s, 0))
      case Stop => Halted
      case Block(b) =>
        var ptr := saddr + 4096 * b;
        Done((State(Take(s.table, b, n),
                    s.slots[p := Record(s.slots[p], i, ptr)],
                    s.maps[p := Mapped(s.maps[p], ptr / 4096, ptr / 4096, n, USER_FLAGS)]), ptr))
  }

  /** Page v belongs to the live run that starts at address a. */
  ghost predicate PageOfRun(live: map<nat, nat>, saddr: nat, a: nat, v: nat) {
    HeapRun(live, saddr, a) && a / 4096 <= v < a / 4096 + live[(a - saddr) / 4096]
  }

  ghost predicate OwnsPage(live: map<nat, nat>, saddr: nat, slots: seq<nat>, v: nat) {
    exists i :: 0 <= i < |slots| && slots[i] != 0 && PageOfRun(live, saddr, slots[i], v)
  }

  /** Every recorded allocation is a live run of the heap. */
  ghost predicate Recorded(live: map<nat, nat>, saddr: nat, slots: seq<nat>) {
    forall i :: 0 <= i < |slots| && slots[i] != 0 ==> HeapRun(live, saddr, slots[i])
  }

  /** No two slots, of one process or of two, hold the same run. */
  ghost predicate Distinct(slots: seq<seq<nat>>) {
    forall p, q, i, j | 0 <= p < |slots| && 0 <= q < |slots| && 0 <= i < |slots[p]| && 0 <= j < |slots[q]| ::
      (p != q || i != j) && slots[p][i] != 0 ==> slots[p][i] != slots[q][j]
  }

  /** A map is the one the process started with, except that the pages of its own runs map to themselves. */
  ghost predicate MapsOwn(base: FlatMap, m: FlatMap, live: map<nat, nat>, saddr: nat, slots: seq<nat>) {
    forall v: nat :: v < 0x10_0000 ==>
      m[v] == if OwnsPage(live, saddr, slots, v) then Or32(v * 4096, USER_FLAGS) else base[v]
  }

  ghost predicate Inv(base: seq<FlatMap>, s: State, saddr: nat) {
    && WellFormed(s.table) && |s.slots| == |s.maps| == |base|
    && Distinct(s.slots)
    && (forall p :: 0 <= p < |s.slots| ==> Recorded(Live(s.table), saddr, s.slots[p]))
    && (forall p :: 0 <= p < |s.slots| ==> MapsOwn(base[p], s.maps[p], Live(s.table), saddr, s.slots[p]))
  }

  ghost predicate HeapAt(saddr: nat, total: nat) {
    saddr > 0 && Aligned(saddr) && saddr + 4096 * total < WORD && total <= 0x8_0000
  }

  /** Adding a run leaves the pages of the recorded runs as they were. */
  lemma OwnsSame(live: map<nat, nat>, saddr: nat, slots: seq<nat>, b: nat, n: nat, v: nat)
    requires b !in live && Recorded(live, saddr, slots)
    ensures OwnsPage(live[b := n], saddr, slots, v) <==> OwnsPage(live, saddr, slots, v)
  {
    forall i | 0 <= i < |slots| && slots[i] != 0
      ensures PageOfRun(live[b := n], saddr, slots[i], v) <==> PageOfRun(live, saddr, slots[i], v)
    {
      assert HeapRun(live, saddr, slots[i]);
    }
  }

  lemma OwnsMore(live: map<nat, nat>, saddr: nat, slots: seq<nat>, i: nat, b: nat, n: nat, v: nat)
    requires b !in live && Recorded(live, saddr, slots) && i < |slots| && slots[i] == 0
    requires saddr > 0 && Aligned(saddr) && b < 0x8_0000
    ensures var ptr := saddr + 4096 * b;
            OwnsPage(live[b := n], saddr, Record(slots, i, ptr), v) <==>
            OwnsPage(live, saddr, slots, v) || ptr / 4096 <= v < ptr / 4096 + n
  {
    var ptr := saddr + 4096 * b;
    var after := Record(slots, i, ptr);
    assert PageOfRun(live[b := n], saddr, ptr, v) <==> ptr / 4096 <= v < ptr / 4096 + n;
    if OwnsPage(live, saddr, slots, v) {
      var k :| 0 <= k < |slots| && slots[k] != 0 && PageOfRun(live, saddr, slots[k], v);
      assert after[k] == slots[k] && PageOfRun(live[b := n], saddr, after[k], v);
    }
    if ptr / 4096 <= v < ptr / 4096 + n {
      assert after[i] == ptr;
    }
    if OwnsPage(live[b := n], saddr, after, v) {
      var k :| 0 <= k < |after| && after[k] != 0 && PageOfRun(live[b := n], saddr, after[k], v);
      assert k != i ==> HeapRun(live, saddr, slots[k]);
      assert k != i ==> PageOfRun(live, saddr, slots[k], v);
    }
  }

  lemma MappedIdentity(f: FlatMap, vp: nat, n: nat, v: nat)
    requires v < 0x10_0000 && vp + n <= 0x10_0000
    ensures Mapped(f, vp, vp, n, USER_FLAGS)[v] == if vp <= v < vp + n then Or32(v * 4096, USER_FLAGS) else f[v]
  {
    hide Or32;
    assert PagesAbove(v, vp) == if v >= vp then v - vp else v - vp + 0x10_0000;
    assert v >= vp ==> (vp + (v - vp)) % 0x10_0000 == v;
  }

  lemma MapGrows(base: FlatMap, m: FlatMap, live: map<nat, nat>, saddr: nat, slots: seq<nat>, i: nat, b: nat, n: nat)
    requires b !in live && Recorded(live, saddr, slots) && i < |slots| && slots[i] == 0
    requires saddr > 0 && Aligned(saddr) && b < 0x8_0000 && saddr + 4096 * (b + n) < WORD
    requires MapsOwn(base, m, live, saddr, slots)
    ensures var ptr := saddr + 4096 * b;
            MapsOwn(base, Mapped(m, ptr / 4096, ptr / 4096, n, USER_FLAGS), live[b := n], saddr, Record(slots, i, ptr))
  {
    hide Or32, OwnsPage, Mapped, Recorded, MappedEntry;
    var ptr := saddr + 4096 * b;
    forall v: nat | v < 0x10_0000
      ensures Mapped(m, ptr / 4096, ptr / 4096, n, USER_FLAGS)[v] ==
              if OwnsPage(live[b := n], saddr, Record(slots, i, ptr), v) then Or32(v * 4096, USER_FLAGS) else base[v]
    {
      OwnsMore(live, saddr, slots, i, b, n, v);
      MappedIdentity(m, ptr / 4096, n, v);
    }
  }

  /** Adding a run nobody records, a kernel allocation or one of another process, leaves a process as it was. */
  lemma OthersKeep(base: FlatMap, m: FlatMap, live: map<nat, nat>, saddr: nat, slots: seq<nat>, b: nat, n: nat)
    requires b !in live && Recorded(live, saddr, slots) && MapsOwn(base, m, live, saddr, slots)
    ensures Recorded(live[b := n], saddr, slots) && MapsOwn(base, m, live[b := n], saddr, slots)
  {
    hide Or32;
    forall v: nat | v < 0x10_0000
      ensures OwnsPage(live[b := n], saddr, slots, v) <==> OwnsPage(live, saddr, slots, v)
    {
      OwnsSame(live, saddr, slots, b, n, v);
    }
  }

  /** A new run is recorded by nobody yet. */
  lemma FreshPointer(live: map<nat, nat>, saddr: nat, slots: seq<nat>, b: nat, j: nat)
    requires b !in live && Recorded(live, saddr, slots) && j < |slots| && saddr > 0
    ensures slots[j] != saddr + 4096 * b
  {
    assert (saddr + 4096 * b - saddr) / 4096 == b;
  }

  lemma DistinctGrows(live: map<nat, nat>, saddr: nat, slots: seq<seq<nat>>, p: nat, i: nat, b: nat)
    requires Distinct(slots) && p < |slots| && i < |slots[p]| && slots[p][i] == 0 && saddr > 0 && b !in live
    requires forall q :: 0 <= q < |slots| ==> Recorded(live, saddr, slots[q])
    ensures Distinct(slots[p := Record(slots[p], i, saddr + 4096 * b)])
  {
    hide Recorded;
    forall q: nat, j: nat | q < |slots| && j < |slots[q]|
      ensures slots[q][j] != saddr + 4096 * b
    {
      FreshPointer(live, saddr, slots[q], b, j);
    }
  }

  lemma RecordedGrows(live: map<nat, nat>, saddr: nat, slots: seq<nat>, i: nat, b: nat)
    requires Recorded(live, saddr, slots) && i < |slots| && b in live && b < 0x8_0000 && Aligned(saddr)
    ensures Recorded(live, saddr, Record(slots, i, saddr + 4096 * b))
  {
    assert (saddr + 4096 * b - saddr) / 4096 == b;
  }

  /** A run added for slot i of process p: the invariant for each process q. */
  lemma ProcessKeeps(base: seq<FlatMap>, s: State, saddr: nat, p: nat, i: nat, b: nat, n: nat, q: nat)
    requires Inv(base, s, saddr) && HeapAt(saddr, |s.table|) && p < |s.slots| && q < |s.slots|
    requires i < |s.slots[p]| && s.slots[p][i] == 0 && b !in Live(s.table) && n >= 1 && b + n <= |s.table|
    ensures var ptr, live := saddr + 4096 * b, Live(s.table)[b := n];
            var slots := if q == p then Record(s.slots[p], i, ptr) else s.slots[q];
            var m := if q == p then Mapped(s.maps[p], ptr / 4096, ptr / 4096, n, USER_FLAGS) else s.maps[q];
            Recorded(live, saddr, slots) && MapsOwn(base[q], m, live, saddr, slots)
  {
    hide Or32, MapsOwn, Recorded, Mapped, WellFormed, Distinct, Live;
    var live := Live(s.table);
    OthersKeep(base[q], s.maps[q], live, saddr, s.slots[q], b, n);
    if q == p {
      RecordedGrows(live[b := n], saddr, s.slots[p], i, b);
      MapGrows(base[p], s.maps[p], live, saddr, s.slots[p], i, b, n);
    }
  }

  /** Every process_malloc that returns keeps the invariant. */
  lemma MallocKeepsInv(base: seq<FlatMap>, s: State, saddr: nat, p: nat, size: int)
    requires Inv(base, s, saddr) && HeapAt(saddr, |s.table|) && p < |s.slots|
    requires MallocStep(s, saddr, p, size).Done?
    ensures Inv(base, MallocStep(s, saddr, p, size).value.0, saddr)
    ensures |MallocStep(s, saddr, p, size).value.0.table| == |s.table|
  {
    hide Or32, MapsOwn, Recorded, Mapped, WellFormed, Distinct, Live;
    var n := BlocksFor(size % WORD);
    if FreeSlot(s.slots[p]).Some? && Allocate(s.table, n).Block? {
      var i, b := FreeSlot(s.slots[p]).value, Allocate(s.table, n).start;
      TakeAddsRun(s.table, b, n);
      DistinctGrows(Live(s.table), saddr, s.slots, p, i, b);
      forall q: nat | q < |s.slots|
        ensures var after := MallocStep(s, saddr, p, size).value.0;
                && Recorded(Live(s.table)[b := n], saddr, after.slots[q])
                && MapsOwn(base[q], after.maps[q], Live(s.table)[b := n], saddr, after.slots[q])
      {
        ProcessKeeps(base, s, saddr, p, i, b, n, q);
      }
    }
  }

  /**
   A null result changes nothing, and a full slot table always gives one; else the lowest run that fits is taken and
   recorded in the first free slot, and no other slot and no other map changes.
   */
  lemma MallocResult(base: seq<FlatMap>, s: State, saddr: nat, p: nat, size: int)
    requires Inv(base, s, saddr) && HeapAt(saddr, |s.table|) && p < |s.slots|
    requires MallocStep(s, saddr, p, size).Done?
    ensures var (after, ptr) := MallocStep(s, saddr, p, size).value;
            && (0 !in s.slots[p] ==> ptr == 0)
            && (ptr == 0 ==> after == s)
            && (ptr != 0 ==>
                 var b := BlockOf(saddr, ptr);
                 && ptr >= saddr && b !in Live(s.table) && ptr in after.slots[p] && WellFormed(after.table)
                 && Live(after.table) == Live(s.table)[b := BlocksFor(size % WORD)]
                 && (forall q: nat :: q < b ==> !FreeWindow(s.table, q, BlocksFor(size % WORD)))
                 && RecordsAt(s.slots[p], after.slots[p], ptr)
                 && after.slots == s.slots[p := after.slots[p]] && after.maps == s.maps[p := after.maps[p]])
  {
    hide Or32, MapsOwn, Recorded, Mapped, Distinct, HeapRun, RunLength, RunByte, Take, BlocksFor,
         FirstFit, FreeSlot, WellFormed;
    var n := BlocksFor(size % WORD);
    if FreeSlot(s.slots[p]).Some? && Allocate(s.table, n).Block? {
      var i, b := FreeSlot(s.slots[p]).value, Allocate(s.table, n).start;
      TakeAddsRun(s.table, b, n);
      assert (saddr + 4096 * b - saddr) / 4096 == b;
      assert Record(s.slots[p], i, saddr + 4096 * b)[i] == saddr + 4096 * b;
      assert Record(s.slots[p], i, saddr + 4096 * b) == s.slots[p][i := saddr + 4096 * b];
    }
  }

  /** The first free slot holds ptr now, and the others what they held. */
  ghost predicate RecordsAt(before: seq<nat>, after: seq<nat>, ptr: nat) {
    exists i :: 0 <= i < |before| && before[i] == 0 && (forall j :: 0 <= j < i ==> before[j] != 0)
                && after == before[i := ptr]
  }

  // ----- interleavings

  ghost predicate Unrecorded(slots: seq<seq<nat>>, a: nat) {
    forall p :: 0 <= p < |slots| ==> a !in slots[p]
  }

  /** None of the count pages from vp on is a page of p's own runs. */
  ghost predicate Unowned(live: map<nat, nat>, saddr: nat, slots: seq<nat>, vp: nat, count: nat) {
    forall v: nat :: v < 0x10_0000 && PagesAbove(v, vp) < count ==> !OwnsPage(live, saddr, slots, v)
  }

  /**
   One call that returns. The kernel frees only what no process has recorded, and maps only pages that are not
   the process's own allocations. A process that exits gives back all it has recorded.
   */
  ghost predicate Step(s: State, saddr: nat, op: Op, after: State)
    requires WellFormed(s.table) && |s.slots| == |s.maps|
  {
    match op
    case ProcessMalloc(p, size) =>
      p < |s.slots| && MallocStep(s, saddr, p, size).Done? && after == MallocStep(s, saddr, p, size).value.0
    case KernelMalloc(bytes) =>
      bytes < WORD &&
      (match Allocate(s.table, BlocksFor(bytes))
       case Block(b) => after == s.(table := Take(s.table, b, BlocksFor(bytes)))
       case NoMemory => after == s
       case Stop => false)
    case KernelFree(a) =>
      && HeapRun(Live(s.table), saddr, a) && Unrecorded(s.slots, a)
      && after == s.(table := Release(s.table, (a - saddr) / 4096, Live(s.table)[(a - saddr) / 4096]))
    case KernelMap(p, vp, pp, count, flags) =>
      && p < |s.slots| && Unowned(Live(s.table), saddr, s.slots[p], vp, count)
      && after == s.(maps := s.maps[p := Mapped(s.maps[p], vp, pp, count, flags)])
    case Exit(p, next) =>
      && p < |s.slots| && WellFormed(after.table) && |after.table| == |s.table|
      && Live(after.table) == Without(Live(s.table), saddr, Pointers(s.slots[p]))
      && after.slots == s.slots[p := NoSlots(|s.slots[p]|)] && after.maps == s.maps[p := next]
  }

  /** The runs a slot table records. */
  ghost function Pointers(slots: seq<nat>): set<nat> {
    set a | a in slots && a != 0
  }

  ghost function NoSlots(n: nat): (slots: seq<nat>)
    ensures |slots| == n && forall i :: 0 <= i < n ==> slots[i] == 0
  {
    seq(n, _ => 0)
  }

  /** What the processes' maps would be without their allocations. */
  ghost function BaseStep(base: seq<FlatMap>, op: Op): (after: seq<FlatMap>)
    ensures |after| == |base|
  {
    if op.KernelMap? && op.p < |base| then base[op.p := Mapped(base[op.p], op.vp, op.pp, op.count, op.flags)]
    else if op.Exit? && op.p < |base| then base[op.p := op.next]
    else base
  }

  ghost function BasesAfter(base: seq<FlatMap>, ops: seq<Op>): (after: seq<FlatMap>)
    ensures |after| == |base|
    decreases |ops|
  {
    if ops == [] then base else BasesAfter(BaseStep(base, ops[0]), ops[1..])
  }

  lemma KernelMapKeeps(base: FlatMap, m: FlatMap, live: map<nat, nat>, saddr: nat, slots: seq<nat>, op: Op)
    requires op.KernelMap? && MapsOwn(base, m, live, saddr, slots) && Unowned(live, saddr, slots, op.vp, op.count)
    ensures MapsOwn(Mapped(base, op.vp, op.pp, op.count, op.flags), Mapped(m, op.vp, op.pp, op.count, op.flags),
                    live, saddr, slots)
  {
    hide Or32, OwnsPage, PagesAbove;
  }

  /** Runs that are given back, none of them recorded in slots. */
  ghost predicate Others(live: map<nat, nat>, saddr: nat, slots: seq<nat>, gone: set<nat>) {
    forall a :: a in gone ==> HeapRun(live, saddr, a) && a !in slots
  }

  lemma OwnsFewer(live: map<nat, nat>, saddr: nat, slots: seq<nat>, gone: set<nat>, v: nat)
    requires Recorded(live, saddr, slots) && Others(live, saddr, slots, gone) && Aligned(saddr)
    ensures var after := Without(live, saddr, gone);
            Recorded(after, saddr, slots) && (OwnsPage(after, saddr, slots, v) <==> OwnsPage(live, saddr, slots, v))
  {
    forall i | 0 <= i < |slots| && slots[i] != 0
      ensures HeapRun(Without(live, saddr, gone), saddr, slots[i])
      ensures PageOfRun(Without(live, saddr, gone), saddr, slots[i], v) <==> PageOfRun(live, saddr, slots[i], v)
    {
      StaysLive(live, saddr, gone, slots[i]);
    }
  }

  lemma StaysLive(live: map<nat, nat>, saddr: nat, gone: set<nat>, a: nat)
    requires HeapRun(live, saddr, a) && a !in gone && Aligned(saddr)
    requires forall b :: b in gone ==> HeapRun(live, saddr, b)
    ensures var after := Without(live, saddr, gone);
            HeapRun(after, saddr, a) && after[(a - saddr) / 4096] == live[(a - saddr) / 4096]
  {
    hide HeapRun, BlockOf;
    forall b | b in gone
      ensures BlockOf(saddr, b) != BlockOf(saddr, a)
    {
      BlocksDiffer(live, saddr, a, b);
    }
    assert BlockOf(saddr, a) !in Blocks(saddr, gone);
    HeapRunIs(live, saddr, a);
    HeapRunIs(Without(live, saddr, gone), saddr, a);
  }

  lemma HeapRunIs(live: map<nat, nat>, saddr: nat, a: nat)
    ensures HeapRun(live, saddr, a) <==> saddr <= a < saddr + 0x8000_0000 && Aligned(a) && BlockOf(saddr, a) in live
    ensures BlockOf(saddr, a) == (a - saddr) / 4096
  {}

  lemma FreeKeeps(base: FlatMap, m: FlatMap, live: map<nat, nat>, saddr: nat, slots: seq<nat>, gone: set<nat>)
    requires Recorded(live, saddr, slots) && MapsOwn(base, m, live, saddr, slots)
    requires Others(live, saddr, slots, gone) && Aligned(saddr)
    ensures var after := Without(live, saddr, gone);
            Recorded(after, saddr, slots) && MapsOwn(base, m, after, saddr, slots)
  {
    hide Or32, Recorded, Without, OwnsPage, Others;
    OwnsFewer(live, saddr, slots, gone, 0);
    forall v: nat | v < 0x10_0000
      ensures OwnsPage(Without(live, saddr, gone), saddr, slots, v) <==> OwnsPage(live, saddr, slots, v)
    {
      OwnsFewer(live, saddr, slots, gone, v);
    }
  }

  lemma KernelMallocKeepsInv(base: seq<FlatMap>, s: State, saddr: nat, bytes: nat, after: State)
    requires Inv(base, s, saddr) && HeapAt(saddr, |s.table|) && Step(s, saddr, KernelMalloc(bytes), after)
    ensures Inv(base, after, saddr) && |after.table| == |s.table|
  {
    hide Or32, MapsOwn, Recorded, Mapped, WellFormed, Distinct, Live;
    var n := BlocksFor(bytes);
    if Allocate(s.table, n).Block? {
      var b := Allocate(s.table, n).start;
      TakeAddsRun(s.table, b, n);
      forall p: nat | p < |s.slots|
        ensures Recorded(Live(s.table)[b := n], saddr, s.slots[p])
        ensures MapsOwn(base[p], s.maps[p], Live(s.table)[b := n], saddr, s.slots[p])
      {
        OthersKeep(base[p], s.maps[p], Live(s.table), saddr, s.slots[p], b, n);
      }
    }
  }

  lemma WithoutOne(live: map<nat, nat>, saddr: nat, a: nat)
    requires HeapRun(live, saddr, a)
    ensures Without(live, saddr, {a}) == live - {(a - saddr) / 4096}
  {
    assert Blocks(saddr, {a}) == {BlockOf(saddr, a)};
  }

  lemma KernelFreeKeepsInv(base: seq<FlatMap>, s: State, saddr: nat, a: nat, after: State)
    requires Inv(base, s, saddr) && HeapAt(saddr, |s.table|) && Step(s, saddr, KernelFree(a), after)
    ensures Inv(base, after, saddr) && |after.table| == |s.table|
  {
    hide Or32, MapsOwn, Recorded, Mapped, WellFormed, Distinct, Live, Without;
    ReleaseRemovesRun(s.table, (a - saddr) / 4096);
    WithoutOne(Live(s.table), saddr, a);
    forall p: nat | p < |s.slots|
      ensures Recorded(Live(after.table), saddr, s.slots[p])
      ensures MapsOwn(base[p], s.maps[p], Live(after.table), saddr, s.slots[p])
    {
      FreeKeeps(base[p], s.maps[p], Live(s.table), saddr, s.slots[p], {a});
    }
  }

  lemma KernelMapKeepsInv(base: seq<FlatMap>, s: State, saddr: nat, op: Op, after: State)
    requires Inv(base, s, saddr) && HeapAt(saddr, |s.table|) && op.KernelMap? && Step(s, saddr, op, after)
    ensures Inv(BaseStep(base, op), after, saddr) && |after.table| == |s.table|
  {
    hide Or32, MapsOwn, Recorded, Mapped, WellFormed, Distinct, Live;
    KernelMapKeeps(base[op.p], s.maps[op.p], Live(s.table), saddr, s.slots[op.p], op);
  }

  lemma ExitKeepsInv(base: seq<FlatMap>, s: State, saddr: nat, p: nat, next: FlatMap, after: State)
    requires Inv(base, s, saddr) && HeapAt(saddr, |s.table|) && Step(s, saddr, Exit(p, next), after)
    ensures Inv(base[p := next], after, saddr) && |after.table| == |s.table|
  {
    hide Or32, MapsOwn, Recorded, WellFormed, Distinct, Live, Without;
    var gone := Pointers(s.slots[p]);
    forall q: nat | q < |s.slots|
      ensures Recorded(Live(after.table), saddr, after.slots[q])
      ensures MapsOwn(base[p := next][q], after.maps[q], Live(after.table), saddr, after.slots[q])
    {
      if q == p {
        OwnsNothing(next, Live(after.table), saddr, |s.slots[p]|);
      } else {
        OthersAreLive(Live(s.table), saddr, s.slots, p, q);
        FreeKeeps(base[q], s.maps[q], Live(s.table), saddr, s.slots[q], gone);
      }
    }
    DistinctShrinks(s.slots, p);
  }

  lemma OwnsNothing(base: FlatMap, live: map<nat, nat>, saddr: nat, n: nat)
    ensures Recorded(live, saddr, NoSlots(n)) && MapsOwn(base, base, live, saddr, NoSlots(n))
  {
    hide Or32, PageOfRun;
  }

  lemma OthersAreLive(live: map<nat, nat>, saddr: nat, slots: seq<seq<nat>>, p: nat, q: nat)
    requires p < |slots| && q < |slots| && p != q && Distinct(slots) && Recorded(live, saddr, slots[p])
    ensures Others(live, saddr, slots[q], Pointers(slots[p]))
  {
    hide HeapRun;
    forall a | a in Pointers(slots[p])
      ensures HeapRun(live, saddr, a) && a !in slots[q]
    {
      var i :| 0 <= i < |slots[p]| && slots[p][i] == a;
      assert forall j :: 0 <= j < |slots[q]| ==> slots[p][i] != slots[q][j];
    }
  }

  lemma DistinctShrinks(slots: seq<seq<nat>>, p: nat)
    requires p < |slots| && Distinct(slots)
    ensures Distinct(slots[p := NoSlots(|slots[p]|)])
  {}

  /** Every single step, of a process or of the kernel, keeps the invariant. */
  lemma StepKeepsInv(base: seq<FlatMap>, s: State, saddr: nat, op: Op, after: State)
    requires Inv(base, s, saddr) && HeapAt(saddr, |s.table|) && Step(s, saddr, op, after)
    ensures Inv(BaseStep(base, op), after, saddr) && |after.table| == |s.table|
  {
    hide Inv, HeapAt, MallocStep;
    assert |base| == |s.slots| by { OneBaseEach(base, s, saddr); }
    match op
    case ProcessMalloc(p, size) => MallocKeepsInv(base, s, saddr, p, size);
    case KernelMalloc(bytes) => KernelMallocKeepsInv(base, s, saddr, bytes, after);
    case KernelFree(a) => KernelFreeKeepsInv(base, s, saddr, a, after);
    case KernelMap(_, _, _, _, _) => KernelMapKeepsInv(base, s, saddr, op, after);
    case Exit(p, next) => ExitKeepsInv(base, s, saddr, p, next, after);
  }

  lemma OneBaseEach(base: seq<FlatMap>, s: State, saddr: nat)
    requires Inv(base, s, saddr)
    ensures |base| == |s.slots|
  {}

  /** after is reached from s by the calls in ops, none of which halts. */
  ghost predicate Reaches(base: seq<FlatMap>, s: State, saddr: nat, ops: seq<Op>, after: State)
    requires Inv(base, s, saddr) && HeapAt(saddr, |s.table|)
    decreases |ops|
  {
    if ops == [] then after == s
    else exists mid :: Step(s, saddr, ops[0], mid) && (StepKeepsInv(base, s, saddr, ops[0], mid);
                       Reaches(BaseStep(base, ops[0]), mid, saddr, ops[1..], after))
  }

  /** Safety over every interleaving. */
  lemma {:induction false} ReachesKeepsInv(base: seq<FlatMap>, s: State, saddr: nat, ops: seq<Op>, after: State)
    requires Inv(base, s, saddr) && HeapAt(saddr, |s.table|) && Reaches(base, s, saddr, ops, after)
    ensures Inv(BasesAfter(base, ops), after, saddr) && |after.table| == |s.table|
    decreases |ops|
  {
    hide MapsOwn, Recorded, Distinct, Live, WellFormed, MallocStep, HeapAt, BaseStep;
    if ops != [] {
      var mid :| Step(s, saddr, ops[0], mid) && (StepKeepsInv(base, s, saddr, ops[0], mid);
                 Reaches(BaseStep(base, ops[0]), mid, saddr, ops[1..], after));
      StepKeepsInv(base, s, saddr, ops[0], mid);
      ReachesKeepsInv(BaseStep(base, ops[0]), mid, saddr, ops[1..], after);
    }
  }

  // ----- what user code can touch

  /** The entry is present and user-accessible. */
  predicate UserAccessible(entry: Word) {
    And(entry, 0x01) != 0 && And(entry, 0x04) != 0
  }

  /** No process has allocated anything yet; its map may be anything. */
  ghost predicate Started(s: State) {
    && WellFormed(s.table) && |s.slots| == |s.maps|
    && (forall p :: 0 <= p < |s.slots| ==> forall a :: a in s.slots[p] ==> a == 0)
  }

  lemma StartedInv(s: State, saddr: nat)
    requires Started(s)
    ensures Inv(s.maps, s, saddr)
  {
    hide Or32, WellFormed;
    forall p: nat, i: nat | p < |s.slots| && i < |s.slots[p]|
      ensures s.slots[p][i] == 0
    {
      assert s.slots[p][i] in s.slots[p];
    }
  }

  lemma FlagTests(v: nat)
    requires v < 0x10_0000
    ensures IsOpen(Or32(v * 4096, USER_FLAGS)) && PageOf(Or32(v * 4096, USER_FLAGS)) == v * 4096
    ensures And(Or32(v * 4096, USER_FLAGS), 0x10) != 0
    ensures !UserAccessible(Or32(v * 4096, Or32(PRESENT, CACHE_DISABLED)))
  {
    assert Or32(PRESENT, CACHE_DISABLED) == 0x11 && And(0x11, 0x04) == 0;
    assert And(0x17, 0x10) == 0x10 && And(0x17, 0x01) == 0x01 && And(0x17, 0x02) == 0x02 && And(0x17, 0x04) == 0x04;
    hide Or, And;
    Packing(v * 4096, USER_FLAGS);
    TestPacked(v * 4096, USER_FLAGS, 0x01);
    TestPacked(v * 4096, USER_FLAGS, 0x02);
    TestPacked(v * 4096, USER_FLAGS, 0x04);
    TestPacked(v * 4096, USER_FLAGS, 0x10);
    TestPacked(v * 4096, 0x11, 0x04);
  }

  /**
   Whatever several processes and the kernel allocate, free and map in any order: a page is accessible to a
   process exactly when it is a page of one of that process's own live runs, and then it maps to itself, present,
   writeable, user-accessible and uncached, or the kernel has made it accessible on its own account, and then it
   maps as the kernel has it.
   */
  lemma AccessibleExactly(s: State, saddr: nat, ops: seq<Op>, after: State, p: nat, v: nat)
    requires Started(s) && HeapAt(saddr, |s.table|) && p < |s.slots| && v < 0x10_0000
    requires (StartedInv(s, saddr); Reaches(s.maps, s, saddr, ops, after))
    ensures |after.slots| == |after.maps| == |s.slots| && WellFormed(after.table)
    ensures var own, base := OwnsPage(Live(after.table), saddr, after.slots[p], v), BasesAfter(s.maps, ops)[p][v];
            && (UserAccessible(after.maps[p][v]) <==> own || UserAccessible(base))
            && (own ==> And(after.maps[p][v], 0x01) != 0 && And(after.maps[p][v], 0x02) != 0
                        && And(after.maps[p][v], 0x04) != 0 && And(after.maps[p][v], 0x10) != 0)
            && (if own then PageOf(after.maps[p][v]) == v * 4096 else after.maps[p][v] == base)
  {
    hide Or32, WellFormed, Distinct, Recorded, OwnsPage, Live, Reaches, And, PageOf, BasesAfter;
    StartedInv(s, saddr);
    ReachesKeepsInv(s.maps, s, saddr, ops, after);
    assert MapsOwn(BasesAfter(s.maps, ops)[p], after.maps[p], Live(after.table), saddr, after.slots[p]);
    FlagTests(v);
  }

  /**
   Isolation: no page of a live run that p has not recorded is accessible to p, unless the kernel has mapped that
   very page for p. Such a run may hold another process's memory, kernel data or the page tables themselves.
   */
  lemma Isolation(s: State, saddr: nat, ops: seq<Op>, after: State, p: nat, a: nat, v: nat)
    requires Started(s) && HeapAt(saddr, |s.table|) && p < |s.slots| && v < 0x10_0000
    requires (StartedInv(s, saddr); Reaches(s.maps, s, saddr, ops, after))
    requires |after.slots| == |after.maps| == |s.slots| && WellFormed(after.table)
    requires a !in after.slots[p] && PageOfRun(Live(after.table), saddr, a, v)
    requires !UserAccessible(BasesAfter(s.maps, ops)[p][v])
    ensures !UserAccessible(after.maps[p][v])
  {
    hide Or32, WellFormed, Distinct, Live, Reaches, And, PageOf, BasesAfter;
    AccessibleExactly(s, saddr, ops, after, p, v);
    StartedInv(s, saddr);
    ReachesKeepsInv(s.maps, s, saddr, ops, after);
    var live := Live(after.table);
    if OwnsPage(live, saddr, after.slots[p], v) {
      var i :| 0 <= i < |after.slots[p]| && after.slots[p][i] != 0 && PageOfRun(live, saddr, after.slots[p][i], v);
      SharedPage(after.table, saddr, after.slots[p][i], a, v);
    }
  }

  // ----- maps as paging_new_4gb makes them

  /** The map of a new directory, as task_init asks for it. */
  ghost function FreshMap(): FlatMap {
    IdentityMap(Or32(PRESENT, CACHE_DISABLED))
  }

  /** Its pages are present and uncached, neither writeable nor user-accessible, and map to themselves. */
  lemma FreshPages(v: nat)
    requires v < 0x10_0000
    ensures var e := FreshMap()[v];
            && And(e, 0x01) != 0 && And(e, 0x02) == 0 && And(e, 0x04) == 0 && And(e, 0x10) != 0
            && PageOf(e) == v * 4096
  {
    assert Or32(PRESENT, CACHE_DISABLED) == 0x11 && And(0x11, 0x04) == 0 && And(0x11, 0x02) == 0;
    assert And(0x11, 0x01) == 0x01 && And(0x11, 0x10) == 0x10;
    hide Or, And;
    Packing(v * 4096, 0x11);
    TestPacked(v * 4096, 0x11, 0x01);
    TestPacked(v * 4096, 0x11, 0x02);
    TestPacked(v * 4096, 0x11, 0x04);
    TestPacked(v * 4096, 0x11, 0x10);
  }

  /**
   With such maps to begin with, and only allocations and exits after that, a process can touch nothing but its
   own runs.
   */
  lemma AccessibleExactlyOwn(s: State, saddr: nat, ops: seq<Op>, after: State, p: nat, v: nat)
    requires Started(s) && HeapAt(saddr, |s.table|) && p < |s.slots| && v < 0x10_0000
    requires forall q :: 0 <= q < |s.maps| ==> s.maps[q] == FreshMap()
    requires forall op :: op in ops ==> !op.KernelMap? && (op.Exit? ==> op.next == FreshMap())
    requires (StartedInv(s, saddr); Reaches(s.maps, s, saddr, ops, after))
    ensures |after.slots| == |after.maps| == |s.slots| && WellFormed(after.table)
    ensures var own := OwnsPage(Live(after.table), saddr, after.slots[p], v);
            && (UserAccessible(after.maps[p][v]) <==> own)
            && (own ==> And(after.maps[p][v], 0x01) != 0 && And(after.maps[p][v], 0x02) != 0
                        && And(after.maps[p][v], 0x04) != 0)
  {
    hide Or32, WellFormed, Distinct, Recorded, OwnsPage, Live, Reaches, And, PageOf, BasesAfter;
    AccessibleExactly(s, saddr, ops, after, p, v);
    NothingMapped(s.maps, ops);
    FlagTests(v);
  }

  lemma {:induction false} NothingMapped(base: seq<FlatMap>, ops: seq<Op>)
    requires forall q :: 0 <= q < |base| ==> base[q] == FreshMap()
    requires forall op :: op in ops ==> !op.KernelMap? && (op.Exit? ==> op.next == FreshMap())
    ensures forall q :: 0 <= q < |base| ==> BasesAfter(base, ops)[q] == FreshMap()
    decreases |ops|
  {
    hide FreshMap, Mapped;
    if ops != [] {
      assert ops[0] in ops;
      NothingMapped(BaseStep(base, ops[0]), ops[1..]);
    }
  }

  lemma SharedPage(t: Table, saddr: nat, a: nat, b: nat, v: nat)
    requires WellFormed(t) && Aligned(saddr)
    requires PageOfRun(Live(t), saddr, a, v) && PageOfRun(Live(t), saddr, b, v)
    ensures a == b
  {
    var i, j := (a - saddr) / 4096, (b - saddr) / 4096;
    assert a == saddr + 4096 * i && b == saddr + 4096 * j;
    if i < j { LiveDisjoint(t, i, j); }
    if j < i { LiveDisjoint(t, j, i); }
  }
}
