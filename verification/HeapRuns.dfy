/**
 Whole runs of the allocator: every list of heap_malloc and heap_free calls that does not halt acts on
 the byte table as an allocator that knows nothing but a set of disjoint runs.
 */
module HeapRuns {
  import opened Kernel
  import opened Heap

  datatype Op = Malloc(size: nat) | Free(ptr: nat)

  ghost predicate ValidOp(op: Op, saddr: nat) {
    match op
    case Malloc(size) => size < WORD
    case Free(ptr) => ptr < saddr + 0x8000_0000
  }

  /** What one call does to the table, as the methods above promise. */
  ghost function Step(t: Table, saddr: nat, op: Op): Outcome<Table>
    requires WellFormed(t) && ValidOp(op, saddr)
  {
    match op
    case Malloc(size) =>
      (match Allocate(t, BlocksFor(size))
       case Block(s) => Done(Take(t, s, BlocksFor(size)))
       case NoMemory => Done(t)
       case Stop => Halted)
    case Free(ptr) =>
      if ptr == 0 then Done(t)
      else if !Freeable(t, saddr, ptr) then Halted
      else Done(Release(t, (ptr - saddr) / 4096, Live(t)[(ptr - saddr) / 4096]))
  }

  // The abstract allocator knows only the set of runs.

  ghost predicate Uncovered(live: map<nat, nat>, b: nat) {
    forall r :: !Covers(live, r, b)
  }

  ghost predicate Unclaimed(live: map<nat, nat>, total: nat, s: nat, n: nat) {
    s + n <= total && forall b :: s <= b < s + n ==> Uncovered(live, b)
  }

  ghost predicate IsLowestGap(live: map<nat, nat>, total: nat, s: nat, n: nat) {
    Unclaimed(live, total, s, n) && forall q: nat :: q < s ==> !Unclaimed(live, total, q, n)
  }

  /** Runs are non-empty, inside the heap and pairwise disjoint. */
  ghost predicate DisjointRuns(live: map<nat, nat>, total: nat) {
    && (forall s :: s in live ==> 1 <= live[s] && s + live[s] <= total)
    && (forall s, r :: s in live && r in live && s < r ==> s + live[s] <= r)
  }

  /** One call, described on the set of runs alone. */
  ghost predicate AbstractStep(live: map<nat, nat>, total: nat, saddr: nat, op: Op, after: map<nat, nat>)
    requires ValidOp(op, saddr)
  {
    match op
    case Malloc(size) =>
      var n := BlocksFor(size);
      if n >= 1 && exists s :: Unclaimed(live, total, s, n)
      then exists s :: IsLowestGap(live, total, s, n) && s !in live && after == live[s := n]
      else after == live && (total == 0 || !Unclaimed(live, total, total - 1, 1))
    case Free(ptr) =>
      if ptr == 0 then after == live
      else ptr >= saddr && Aligned(ptr) && (ptr - saddr) / 4096 in live && after == live - {(ptr - saddr) / 4096}
  }

  lemma UnclaimedIsFree(t: Table, s: nat, n: nat)
    requires WellFormed(t)
    ensures Unclaimed(Live(t), |t|, s, n) <==> FreeWindow(t, s, n)
  {
    if s + n <= |t| {
      forall b: nat | s <= b < s + n
        ensures IsFree(t[b]) <==> Uncovered(Live(t), b)
      {
        Tiling(t, b);
      }
    }
  }

  lemma LiveIsDisjoint(t: Table)
    requires WellFormed(t)
    ensures DisjointRuns(Live(t), |t|)
  {
    forall s, r | s in Live(t) && r in Live(t) && s < r
      ensures s + Live(t)[s] <= r
    {
      LiveDisjoint(t, s, r);
    }
  }

  /** Every call that returns acts on the byte table as the abstract allocator acts on the runs. */
  lemma StepRefines(t: Table, saddr: nat, op: Op)
    requires WellFormed(t) && ValidOp(op, saddr) && Step(t, saddr, op).Done?
    ensures var u := Step(t, saddr, op).value;
            WellFormed(u) && |u| == |t| && AbstractStep(Live(t), |t|, saddr, op, Live(u))
  {
    match op
    case Malloc(size) =>
      var n := BlocksFor(size);
      forall s: nat
        ensures Unclaimed(Live(t), |t|, s, n) <==> FreeWindow(t, s, n)
      {
        UnclaimedIsFree(t, s, n);
      }
      match Allocate(t, n) {
        case Block(s) =>
          TakeAddsRun(t, s, n);
          assert IsLowestGap(Live(t), |t|, s, n);
        case NoMemory =>
          if |t| > 0 { UnclaimedIsFree(t, |t| - 1, 1); }
      }
    case Free(ptr) =>
      if ptr != 0 { ReleaseRemovesRun(t, (ptr - saddr) / 4096); }
  }

  /** When a call stops the machine, on the set of runs alone. */
  ghost predicate AbstractHalts(live: map<nat, nat>, total: nat, saddr: nat, op: Op)
    requires ValidOp(op, saddr)
  {
    match op
    case Malloc(size) =>
      var n := BlocksFor(size);
      !(n >= 1 && exists s :: Unclaimed(live, total, s, n)) && total > 0 && Unclaimed(live, total, total - 1, 1)
    case Free(ptr) =>
      ptr != 0 && !(ptr >= saddr && Aligned(ptr) && (ptr - saddr) / 4096 in live)
  }

  /** A call halts exactly when nothing fits although the last block is free, or nothing to free starts there. */
  lemma HaltsExactly(t: Table, saddr: nat, op: Op)
    requires WellFormed(t) && ValidOp(op, saddr)
    ensures Step(t, saddr, op).Halted? <==> AbstractHalts(Live(t), |t|, saddr, op)
  {
    match op
    case Malloc(size) =>
      var n := BlocksFor(size);
      forall s: nat
        ensures Unclaimed(Live(t), |t|, s, n) <==> FreeWindow(t, s, n)
      {
        UnclaimedIsFree(t, s, n);
      }
      if |t| > 0 { UnclaimedIsFree(t, |t| - 1, 1); }
    case Free(ptr) =>
  }

  /** The table after a list of calls, unless one of them halts. */
  ghost function Run(t: Table, saddr: nat, ops: seq<Op>): (r: Outcome<Table>)
    requires WellFormed(t) && forall op :: op in ops ==> ValidOp(op, saddr)
    ensures r.Done? ==> WellFormed(r.value) && |r.value| == |t|
    decreases |ops|
  {
    if ops == [] then Done(t)
    else
      match Step(t, saddr, ops[0])
      case Halted => Halted
      case Done(u) =>
        StepRefines(t, saddr, ops[0]);
        Run(u, saddr, ops[1..])
  }

  ghost predicate AbstractRun(live: map<nat, nat>, total: nat, saddr: nat, ops: seq<Op>, after: map<nat, nat>)
    requires forall op :: op in ops ==> ValidOp(op, saddr)
    decreases |ops|
  {
    if ops == [] then after == live
    else exists mid :: AbstractStep(live, total, saddr, ops[0], mid) && AbstractRun(mid, total, saddr, ops[1..], after)
  }

  /** Safety over every run that does not halt, and refinement to the set of disjoint runs. */
  lemma {:induction false} RunRefines(t: Table, saddr: nat, ops: seq<Op>)
    requires WellFormed(t) && forall op :: op in ops ==> ValidOp(op, saddr)
    requires Run(t, saddr, ops).Done?
    ensures var u := Run(t, saddr, ops).value;
            DisjointRuns(Live(u), |u|) && AbstractRun(Live(t), |t|, saddr, ops, Live(u))
    decreases |ops|
  {
    if ops == [] {
      LiveIsDisjoint(t);
    } else {
      StepRefines(t, saddr, ops[0]);
      RunRefines(Step(t, saddr, ops[0]).value, saddr, ops[1..]);
    }
  }

  /** Freeing what malloc has just returned restores the table byte for byte. */
  lemma MallocThenFree(t: Table, saddr: nat, size: nat)
    requires WellFormed(t) && size < WORD && saddr > 0 && Aligned(saddr) && |t| <= 0x8_0000
    requires Allocate(t, BlocksFor(size)).Block?
    ensures var s := Allocate(t, BlocksFor(size)).start;
            var u := Take(t, s, BlocksFor(size));
            && Step(t, saddr, Malloc(size)) == Done(u)
            && WellFormed(u) && ValidOp(Free(saddr + 4096 * s), saddr)
            && Step(u, saddr, Free(saddr + 4096 * s)) == Done(t)
  {
    hide WellFormed, Live, Take, Release, Allocate, BlocksFor, IsFirst;
    FreedAgain(t, Allocate(t, BlocksFor(size)).start, BlocksFor(size));
    BackToBlock(saddr, Allocate(t, BlocksFor(size)).start);
  }

  lemma BackToBlock(saddr: nat, s: nat)
    requires Aligned(saddr)
    ensures Aligned(saddr + 4096 * s) && (saddr + 4096 * s - saddr) / 4096 == s
  {}
}
