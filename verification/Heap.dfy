/**
 The kernel heap (src/memory/heap.c): one byte per 4096-byte block. A live allocation is a run of
 blocks; its first byte carries FIRST, every byte but the last carries HAS_NEXT.

 The table is refined to the map from run starts to run lengths (Live), which fixes every byte.
 */
module Heap {
  import opened Kernel

  const TAKEN: bv8 := 0x01
  const FREE: bv8 := 0x00
  const HAS_NEXT: bv8 := 0x80
  const IS_FIRST: bv8 := 0x40

  type Table = seq<bv8>

  predicate IsFree(e: bv8) { e & 0x0f == FREE }

  predicate IsFirst(e: bv8) { e & IS_FIRST != 0 }

  predicate HasNext(e: bv8) { e & HAS_NEXT != 0 }

  /** A block inside a run, other than its first. */
  predicate Continues(e: bv8) { e == TAKEN || e == TAKEN | HAS_NEXT }

  predicate Legal(e: bv8) {
    e == FREE || e == TAKEN | IS_FIRST || e == TAKEN | IS_FIRST | HAS_NEXT || Continues(e)
  }

  /** Block b is linked to the block before it. */
  ghost predicate Linked(t: Table, b: nat) {
    0 < b < |t| && HasNext(t[b - 1]) && Continues(t[b])
  }

  ghost predicate LocallyWellFormed(t: Table, b: nat)
    requires b < |t|
  {
    && Legal(t[b])
    && (HasNext(t[b]) ==> Linked(t, b + 1))
    && (Continues(t[b]) ==> Linked(t, b))
  }

  /** The table is tiled by free blocks and complete runs. */
  ghost predicate WellFormed(t: Table) {
    forall b: nat :: b < |t| ==> LocallyWellFormed(t, b)
  }

  /** The number of blocks from s to the end of the run through s. */
  ghost function RunLength(t: Table, s: nat): (n: nat)
    requires WellFormed(t) && s < |t|
    ensures 1 <= n && s + n <= |t| && !HasNext(t[s + n - 1])
    ensures forall b: nat :: s < b < s + n ==> Linked(t, b)
    decreases |t| - s
  {
    assert LocallyWellFormed(t, s);
    if HasNext(t[s]) then 1 + RunLength(t, s + 1) else 1
  }

  /** The abstract heap: start block of every live run, and its length. */
  ghost function Live(t: Table): (m: map<nat, nat>)
    requires WellFormed(t)
  {
    map s: nat | s < |t| && IsFirst(t[s]) :: RunLength(t, s)
  }

  ghost predicate Covers(live: map<nat, nat>, s: nat, b: nat) {
    s in live && s <= b < s + live[s]
  }

  /** The run a taken block belongs to. */
  ghost function Owner(t: Table, b: nat): (s: nat)
    requires WellFormed(t) && b < |t| && !IsFree(t[b])
    ensures Covers(Live(t), s, b)
    decreases b
  {
    assert LocallyWellFormed(t, b);
    if IsFirst(t[b]) then b
    else
      assert Linked(t, b) && LocallyWellFormed(t, b - 1);
      var s := Owner(t, b - 1);
      assert !HasNext(t[s + Live(t)[s] - 1]);
      s
  }

  /** Runs never share a block. */
  lemma LiveDisjoint(t: Table, s1: nat, s2: nat)
    requires WellFormed(t) && s1 in Live(t) && s2 in Live(t) && s1 < s2
    ensures s1 + Live(t)[s1] <= s2
  {
    assert s2 < s1 + Live(t)[s1] ==> Linked(t, s2);
  }

  /** Tiling: a block is taken exactly when one run, and only one, covers it. */
  lemma Tiling(t: Table, b: nat)
    requires WellFormed(t) && b < |t|
    ensures !IsFree(t[b]) <==> exists s :: Covers(Live(t), s, b)
    ensures forall s1, s2 :: Covers(Live(t), s1, b) && Covers(Live(t), s2, b) ==> s1 == s2
  {
    if !IsFree(t[b]) {
      assert Covers(Live(t), Owner(t, b), b);
    }
    forall s | Covers(Live(t), s, b)
      ensures !IsFree(t[b])
    {
      assert LocallyWellFormed(t, b) && (s == b || Linked(t, b));
    }
    forall s1, s2 | Covers(Live(t), s1, b) && Covers(Live(t), s2, b)
      ensures s1 == s2
    {
      if s1 < s2 { LiveDisjoint(t, s1, s2); }
      if s2 < s1 { LiveDisjoint(t, s2, s1); }
    }
  }

  /** The byte heap_mark_blocks_taken writes at offset k of a run of n blocks. */
  function RunByte(k: nat, n: nat): bv8
    requires k < n
  {
    if k == 0 then (if n > 1 then TAKEN | IS_FIRST | HAS_NEXT else TAKEN | IS_FIRST)
    else if k + 1 < n then TAKEN | HAS_NEXT else TAKEN
  }

  /** The bytes of a run, as src/memory/heap.h:7-11 has them. */
  lemma RunByteValues(k: nat, n: nat)
    requires k < n
    ensures RunByte(k, n) == if n == 1 then 0x41 else if k == 0 then 0xC1 else if k < n - 1 then 0x81 else 0x01
    ensures FREE == 0x00
  {}

  lemma RunBytes(t: Table, s: nat, k: nat)
    requires WellFormed(t) && s in Live(t) && k < Live(t)[s]
    ensures t[s + k] == RunByte(k, Live(t)[s])
  {
    assert k > 0 ==> Linked(t, s + k);
    assert k + 1 < Live(t)[s] ==> Linked(t, s + k + 1);
    assert LocallyWellFormed(t, s + k);
  }

  /** The live runs determine the table byte for byte. */
  lemma LiveDeterminesTable(t: Table, u: Table)
    requires WellFormed(t) && WellFormed(u) && |t| == |u| && Live(t) == Live(u)
    ensures t == u
  {
    forall b | 0 <= b < |t|
      ensures t[b] == u[b]
    {
      assert LocallyWellFormed(t, b) && LocallyWellFormed(u, b);
      Tiling(t, b);
      Tiling(u, b);
      if exists s :: Covers(Live(t), s, b) {
        var s :| Covers(Live(t), s, b);
        RunBytes(t, s, b - s);
        RunBytes(u, s, b - s);
      }
    }
  }

  // ----- taking and releasing a run

  predicate FreeWindow(t: Table, s: nat, n: nat) {
    s + n <= |t| && forall k :: s <= k < s + n ==> IsFree(t[k])
  }

  function Take(t: Table, s: nat, n: nat): (u: Table)
    requires s + n <= |t|
    ensures |u| == |t|
    ensures forall b :: 0 <= b < |t| ==> u[b] == if s <= b < s + n then RunByte(b - s, n) else t[b]
  {
    seq(|t|, b requires 0 <= b < |t| => if s <= b < s + n then RunByte(b - s, n) else t[b])
  }

  function Release(t: Table, s: nat, n: nat): (u: Table)
    requires s + n <= |t|
    ensures |u| == |t|
    ensures forall b :: 0 <= b < |t| ==> u[b] == if s <= b < s + n then FREE else t[b]
  {
    seq(|t|, b requires 0 <= b < |t| => if s <= b < s + n then FREE else t[b])
  }

  /** A run's length depends on its own bytes only. */
  lemma {:induction false} RunLengthLocal(t: Table, u: Table, s: nat, n: nat)
    requires WellFormed(t) && WellFormed(u) && s < |t| && n == RunLength(t, s) && s + n <= |u|
    requires forall k :: s <= k < s + n ==> u[k] == t[k]
    ensures RunLength(u, s) == n
    decreases n
  {
    assert HasNext(u[s]) == HasNext(t[s]);
    if n > 1 {
      RunLengthLocal(t, u, s + 1, n - 1);
    }
  }

  lemma {:induction false} RunLengthOfTaken(u: Table, s: nat, n: nat, k: nat)
    requires WellFormed(u) && s + n <= |u| && k < n
    requires forall j :: 0 <= j < n ==> u[s + j] == RunByte(j, n)
    ensures RunLength(u, s + k) == n - k
    decreases n - k
  {
    assert u[s + k] == RunByte(k, n);
    if k + 1 < n {
      RunLengthOfTaken(u, s, n, k + 1);
    }
  }

  lemma LiveElsewhere(t: Table, u: Table, r: nat)
    requires WellFormed(t) && WellFormed(u) && |u| == |t| && r in Live(t)
    requires forall k :: r <= k < r + Live(t)[r] ==> u[k] == t[k]
    ensures r in Live(u) && Live(u)[r] == Live(t)[r]
  {
    RunLengthLocal(t, u, r, Live(t)[r]);
  }

  lemma RunAvoidsFree(t: Table, r: nat, b: nat)
    requires WellFormed(t) && b < |t| && Covers(Live(t), r, b)
    ensures !IsFree(t[b])
  {
    Tiling(t, b);
  }

  lemma TakeWellFormed(t: Table, s: nat, n: nat)
    requires WellFormed(t) && n >= 1 && FreeWindow(t, s, n)
    ensures WellFormed(Take(t, s, n))
  {
    var u := Take(t, s, n);
    forall b: nat | b < |u|
      ensures LocallyWellFormed(u, b)
    {
      assert LocallyWellFormed(t, b);
      if b + 1 == s { assert LocallyWellFormed(t, s); }
      if b == s + n { assert LocallyWellFormed(t, b - 1); }
    }
  }

  lemma TakeKeepsRun(t: Table, s: nat, n: nat, r: nat)
    requires WellFormed(t) && n >= 1 && FreeWindow(t, s, n) && r in Live(t)
    requires WellFormed(Take(t, s, n))
    ensures r in Live(Take(t, s, n)) && Live(Take(t, s, n))[r] == Live(t)[r]
  {
    forall k: nat | r <= k < r + Live(t)[r]
      ensures Take(t, s, n)[k] == t[k]
    {
      assert Covers(Live(t), r, k);
      RunAvoidsFree(t, r, k);
    }
    LiveElsewhere(t, Take(t, s, n), r);
  }

  lemma TakenRun(t: Table, s: nat, n: nat)
    requires WellFormed(t) && n >= 1 && s + n <= |t|
    requires WellFormed(Take(t, s, n))
    ensures s in Live(Take(t, s, n)) && Live(Take(t, s, n))[s] == n
    ensures forall r :: r in Live(Take(t, s, n)) && r != s ==> r in Live(t)
  {
    hide RunByte, WellFormed, RunLength;
    var u := Take(t, s, n);
    assert forall j :: 0 <= j < n ==> u[s + j] == RunByte(j, n);
    FirstByte(n);
    RunLengthOfTaken(u, s, n, 0);
    forall r | r in Live(u) && r != s
      ensures r in Live(t)
    {
      assert IsFirst(u[r]);
    }
  }

  lemma FirstByte(n: nat)
    requires n >= 1
    ensures forall k :: 0 <= k < n ==> (IsFirst(RunByte(k, n)) <==> k == 0)
  {}

  lemma FreeStartsNothing(t: Table, s: nat)
    requires WellFormed(t) && s < |t| && IsFree(t[s])
    ensures s !in Live(t)
  {
    assert LocallyWellFormed(t, s);
  }

  /** Marking a free window taken adds exactly one run to the live ones. */
  lemma TakeAddsRun(t: Table, s: nat, n: nat)
    requires WellFormed(t) && n >= 1 && FreeWindow(t, s, n)
    ensures WellFormed(Take(t, s, n)) && s !in Live(t)
    ensures Live(Take(t, s, n)) == Live(t)[s := n]
  {
    hide RunByte, Take, Live, WellFormed, LocallyWellFormed;
    TakeWellFormed(t, s, n);
    TakenRun(t, s, n);
    FreeStartsNothing(t, s);
    forall r | r in Live(t)
      ensures r in Live(Take(t, s, n)) && Live(Take(t, s, n))[r] == Live(t)[r]
    {
      TakeKeepsRun(t, s, n, r);
    }
    assert Live(Take(t, s, n)).Keys == Live(t).Keys + {s};
  }

  lemma ReleaseLocal(t: Table, s: nat, n: nat, b: nat)
    requires WellFormed(t) && s in Live(t) && n == Live(t)[s] && b < |t|
    ensures LocallyWellFormed(Release(t, s, n), b)
  {
    assert LocallyWellFormed(t, b);
    if b + 1 == s { assert LocallyWellFormed(t, s); }
    assert !HasNext(t[s + n - 1]);
  }

  lemma ReleaseWellFormed(t: Table, s: nat)
    requires WellFormed(t) && s in Live(t)
    ensures WellFormed(Release(t, s, Live(t)[s]))
  {
    forall b: nat | b < |t|
      ensures LocallyWellFormed(Release(t, s, Live(t)[s]), b)
    {
      ReleaseLocal(t, s, Live(t)[s], b);
    }
  }

  /** Releasing a live run removes exactly that run. */
  lemma ReleaseRemovesRun(t: Table, s: nat)
    requires WellFormed(t) && s in Live(t)
    ensures WellFormed(Release(t, s, Live(t)[s]))
    ensures Live(Release(t, s, Live(t)[s])) == Live(t) - {s}
  {
    hide RunByte, WellFormed;
    var n := Live(t)[s];
    var u := Release(t, s, n);
    ReleaseWellFormed(t, s);
    forall r | r in Live(t) && r != s
      ensures r in Live(u) && Live(u)[r] == Live(t)[r]
    {
      if r < s { LiveDisjoint(t, r, s); } else { LiveDisjoint(t, s, r); }
      LiveElsewhere(t, u, r);
    }
    forall r | r in Live(u)
      ensures r in Live(t) && r != s
    {
      assert u[r] == t[r];
    }
    assert Live(u).Keys == Live(t).Keys - {s};
  }

  /** Taking a free window and releasing it again restores every byte. */
  lemma TakeReleaseRestores(t: Table, s: nat, n: nat)
    requires WellFormed(t) && n >= 1 && FreeWindow(t, s, n)
    ensures Release(Take(t, s, n), s, n) == t
  {
    forall b: nat | b < |t|
      ensures Release(Take(t, s, n), s, n)[b] == t[b]
    {
      assert LocallyWellFormed(t, b);
    }
  }

  // ----- choosing a run

  /** The lowest start, at or after from, of n consecutive free blocks. */
  function FirstFit(t: Table, n: nat, from: nat): (r: Option<nat>)
    requires from <= |t|
    ensures r.Some? ==> from <= r.value && FreeWindow(t, r.value, n)
    ensures r.Some? ==> forall s: nat :: from <= s < r.value ==> !FreeWindow(t, s, n)
    ensures r.None? ==> forall s: nat :: from <= s ==> !FreeWindow(t, s, n)
    decreases |t| - from
  {
    if FreeWindow(t, from, n) then Some(from)
    else if from == |t| then None
    else FirstFit(t, n, from + 1)
  }

  ghost predicate NoWindowBefore(t: Table, n: nat, end: nat) {
    forall s: nat :: s + n <= end ==> !FreeWindow(t, s, n)
  }

  /** How heap_malloc_blocks ends: a run, a null pointer, or a failed ASSERT. */
  datatype Allocation = Block(start: nat) | NoMemory | Stop

  /**
   A request that fits nowhere is answered with null only if the last block is taken: a free tail
   that is too short is still handed to heap_mark_blocks_taken, whose ASSERT fails.
   */
  function Allocate(t: Table, n: nat): (a: Allocation)
    ensures a.Block? ==> n >= 1 && FreeWindow(t, a.start, n)
    ensures a.Block? ==> forall s: nat :: s < a.start ==> !FreeWindow(t, s, n)
    ensures !a.Block? && n >= 1 ==> forall s: nat :: !FreeWindow(t, s, n)
  {
    if n >= 1 && FirstFit(t, n, 0).Some? then Block(FirstFit(t, n, 0).value)
    else if |t| == 0 || !IsFree(t[|t| - 1]) then NoMemory
    else Stop
  }

  /** kmalloc then kfree of what it returned. */
  lemma FreedAgain(t: Table, s: nat, n: nat)
    requires WellFormed(t) && Allocate(t, n) == Block(s)
    ensures var u := Take(t, s, n);
            && WellFormed(u) && s in Live(u) && Release(u, s, Live(u)[s]) == t && IsFirst(u[s])
  {
    hide Allocate, WellFormed, Take, RunByte;
    AllocatedFits(t, n);
    TakeAddsRun(t, s, n);
    TakeReleaseRestores(t, s, n);
  }

  lemma AllocatedFits(t: Table, n: nat)
    ensures Allocate(t, n).Block? ==> n >= 1 && FreeWindow(t, Allocate(t, n).start, n)
  {}

  /** Two blocks wanted, one free: null when the free one comes first, a halt when it comes last. */
  lemma TailTooShort()
    ensures Allocate([FREE, TAKEN | IS_FIRST], 2) == NoMemory && Allocate([TAKEN | IS_FIRST, FREE], 2) == Stop
  {
    var t, u := [FREE, TAKEN | IS_FIRST], [TAKEN | IS_FIRST, FREE];
    assert IsFree(t[0]) && !IsFree(t[1]) && !IsFree(u[0]) && IsFree(u[1]);
    forall s: nat
      ensures !FreeWindow(t, s, 2) && !FreeWindow(u, s, 2)
    {}
  }

  /** heap_malloc: the number of blocks for a size in bytes. */
  function BlocksFor(size: nat): (n: nat)
    requires size < WORD
    ensures size <= WORD - 4096 ==> 4096 * n - 4096 < size <= 4096 * n || n == size == 0
    ensures size > WORD - 4096 ==> n == 0
    ensures n < 0x10_0000
  {
    AlignUp(size) / 4096
  }

  predicate Freeable(t: Table, saddr: nat, ptr: nat) {
    && ptr >= saddr && Aligned(ptr)
    && (ptr - saddr) / 4096 < |t| && IsFirst(t[(ptr - saddr) / 4096])
  }

  // ----- the code

  class KernelHeap {
    const saddr: nat
    const entries: array<bv8>

    ghost predicate Valid()
      reads entries
    {
      && saddr > 0 && Aligned(saddr) && saddr + 4096 * entries.Length < WORD
      && WellFormed(entries[..])
    }

    constructor (saddr: nat, entries: array<bv8>)
      ensures this.saddr == saddr && this.entries == entries
    {
      this.saddr, this.entries := saddr, entries;
    }

    /** heap_create: checks the region against the table, then clears the table. */
    static method Create(ptr: nat, end: nat, entries: array<bv8>) returns (res: int, heap: KernelHeap?)
      requires 0 < ptr <= end < WORD
      modifies entries
      ensures res == 0 || res == -EINVARG
      ensures res == 0 <==> Aligned(ptr) && Aligned(end) && end - ptr == 4096 * entries.Length
      ensures res == 0 <==> heap != null
      ensures res == 0 ==> heap.saddr == ptr && heap.entries == entries
      ensures res == 0 ==> heap.Valid() && Live(entries[..]) == map[]
      ensures res != 0 ==> entries[..] == old(entries[..])
    {
      if !Aligned(ptr) || !Aligned(end) {
        return -EINVARG, null;
      }
      if entries.Length != (end - ptr) / 4096 {
        return -EINVARG, null;
      }
      for i := 0 to entries.Length
        invariant forall k :: 0 <= k < i ==> entries[k] == FREE
      {
        entries[i] := FREE;
      }
      assert forall b: nat :: b < entries.Length ==> LocallyWellFormed(entries[..], b);
      heap := new KernelHeap(ptr, entries);
      res := 0;
    }

    /** heap_get_start_block: the lowest fitting window, else a free tail that is too short. */
    method GetStartBlock(totalBlocks: nat) returns (r: int)
      requires Valid()
      ensures totalBlocks >= 1 && FirstFit(entries[..], totalBlocks, 0).Some? ==>
                r == FirstFit(entries[..], totalBlocks, 0).value
      ensures !(totalBlocks >= 1 && FirstFit(entries[..], totalBlocks, 0).Some?) ==>
                if entries.Length == 0 || !IsFree(entries[entries.Length - 1]) then r == -ENOMEM
                else 0 <= r < entries.Length && (totalBlocks == 0 || r + totalBlocks > entries.Length)
    {
      var bc, bs := 0, -1;
      var i := 0;
      ghost var t := entries[..];
      while i < entries.Length
        invariant 0 <= i <= entries.Length && 0 <= bc
        invariant bs == -1 <==> bc == 0
        invariant bs != -1 ==> 0 <= bs && bs + bc == i && forall k :: bs <= k < i ==> IsFree(t[k])
        invariant bs == -1 && i > 0 ==> !IsFree(t[i - 1])
        invariant bs > 0 ==> !IsFree(t[bs - 1])
        invariant totalBlocks >= 1 ==> bc < totalBlocks
        invariant totalBlocks >= 1 ==> NoWindowBefore(t, totalBlocks, i)
      {
        if !IsFree(entries[i]) {
          bc, bs := 0, -1;
          i := i + 1;
          continue;
        }
        if bs == -1 {
          bs := i;
        }
        bc := bc + 1;
        if bc == totalBlocks {
          assert FreeWindow(t, bs, totalBlocks);
          break;
        }
        i := i + 1;
      }
      if bs == -1 {
        return -ENOMEM;
      }
      return bs;
    }

    /** heap_mark_blocks_taken; halted when the bounds ASSERT fails. */
    method MarkTaken(startBlock: nat, totalBlocks: nat) returns (halted: bool)
      modifies entries
      ensures halted <==> totalBlocks == 0 || startBlock + totalBlocks > entries.Length
      ensures entries[..] ==
              if halted then old(entries[..]) else Take(old(entries[..]), startBlock, totalBlocks)
    {
      var endBlock: int := startBlock + totalBlocks - 1;
      if !(startBlock < entries.Length && endBlock < entries.Length && startBlock <= endBlock) {
        return true;
      }
      var entry := TAKEN | IS_FIRST;
      if totalBlocks > 1 {
        entry := entry | HAS_NEXT;
      }
      var i := startBlock;
      ghost var t := entries[..];
      while i <= endBlock
        invariant startBlock <= i <= endBlock + 1
        invariant i <= endBlock ==> entry == RunByte(i - startBlock, totalBlocks)
        invariant forall b :: 0 <= b < entries.Length ==>
                    entries[b] == if startBlock <= b < i then RunByte(b - startBlock, totalBlocks) else t[b]
      {
        entries[i] := entry;
        entry := TAKEN;
        if i != endBlock - 1 {
          entry := entry | HAS_NEXT;
        }
        i := i + 1;
      }
      return false;
    }

    /** heap_mark_blocks_free: releases the run that starts here, or halts. */
    method MarkFree(startingBlock: nat) returns (halted: bool)
      requires Valid()
      modifies entries
      ensures Valid()
      ensures halted <==> startingBlock >= entries.Length || !IsFirst(old(entries[startingBlock]))
      ensures halted ==> entries[..] == old(entries[..])
      ensures !halted ==> startingBlock in Live(old(entries[..]))
      ensures !halted ==>
                entries[..] == Release(old(entries[..]), startingBlock, Live(old(entries[..]))[startingBlock])
    {
      if !(startingBlock < entries.Length) || !IsFirst(entries[startingBlock]) {
        return true;
      }
      ghost var t := entries[..];
      ghost var n := Live(t)[startingBlock];
      var i := startingBlock;
      while i < entries.Length
        invariant startingBlock <= i < startingBlock + n
        invariant forall b :: 0 <= b < entries.Length ==>
                    entries[b] == if startingBlock <= b < i then FREE else t[b]
      {
        var entry := entries[i];
        assert i + 1 < startingBlock + n ==> Linked(t, i + 1);
        entries[i] := FREE;
        if !HasNext(entry) {
          break;
        }
        assert i + 1 != startingBlock + n;
        i := i + 1;
      }
      assert entries[..] == Release(t, startingBlock, n);
      ReleaseWellFormed(t, startingBlock);
      return false;
    }

    /** heap_malloc_blocks */
    method MallocBlocks(totalBlocks: nat) returns (r: Outcome<nat>)
      requires Valid()
      modifies entries
      ensures Valid()
      ensures match Allocate(old(entries[..]), totalBlocks)
              case Block(s) =>
                r == Done(saddr + 4096 * s) && entries[..] == Take(old(entries[..]), s, totalBlocks)
              case NoMemory => r == Done(0) && entries[..] == old(entries[..])
              case Stop => r == Halted && entries[..] == old(entries[..])
    {
      var startBlock := GetStartBlock(totalBlocks);
      if startBlock < 0 {
        return Done(0);
      }
      var address := saddr + startBlock * 4096;
      ghost var t := entries[..];
      var halted := MarkTaken(startBlock, totalBlocks);
      if halted {
        return Halted;
      }
      TakeWellFormed(t, startBlock, totalBlocks);
      return Done(address);
    }

    /** heap_malloc; also kmalloc on the kernel heap. */
    method Malloc(size: nat) returns (r: Outcome<nat>)
      requires Valid() && size < WORD
      modifies entries
      ensures Valid()
      ensures match Allocate(old(entries[..]), BlocksFor(size))
              case Block(s) =>
                r == Done(saddr + 4096 * s) && entries[..] == Take(old(entries[..]), s, BlocksFor(size))
              case NoMemory => r == Done(0) && entries[..] == old(entries[..])
              case Stop => r == Halted && entries[..] == old(entries[..])
    {
      var totalBlocks := AlignUp(size) / 4096;
      r := MallocBlocks(totalBlocks);
    }

    /** heap_free. The cast of ptr - saddr to int in heap_address_to_block stays non-negative. */
    method Free(ptr: nat) returns (halted: bool)
      requires Valid() && ptr < saddr + 0x8000_0000
      modifies entries
      ensures Valid()
      ensures halted <==> !Freeable(old(entries[..]), saddr, ptr)
      ensures halted ==> entries[..] == old(entries[..])
      ensures !halted ==>
                var s := (ptr - saddr) / 4096;
                && s in Live(old(entries[..]))
                && entries[..] == Release(old(entries[..]), s, Live(old(entries[..]))[s])
    {
      if !(ptr >= saddr && Aligned(ptr)) {
        return true;
      }
      halted := MarkFree((ptr - saddr) / 4096);
    }

    /** kfree: a null pointer is ignored. */
    method KFree(ptr: nat) returns (halted: bool)
      requires Valid() && ptr < saddr + 0x8000_0000
      modifies entries
      ensures Valid()
      ensures halted <==> ptr != 0 && !Freeable(old(entries[..]), saddr, ptr)
      ensures halted || ptr == 0 ==> entries[..] == old(entries[..])
      ensures !halted && ptr != 0 ==>
                var s := (ptr - saddr) / 4096;
                && s in Live(old(entries[..]))
                && entries[..] == Release(old(entries[..]), s, Live(old(entries[..]))[s])
    {
      if ptr == 0 {
        return false;
      }
      halted := Free(ptr);
    }
  }
}
