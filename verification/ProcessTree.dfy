/**
 Freeing a process with everything it started (process_free and process_terminate_subprocesses,
 src/task/process.c:609-620, :720-730 and :746-791). The memory, task and video of a process are given
 back together; here that is one entry in the log of freed processes.
 */
module ProcessTree {
  import opened Kernel

  // COS32_MAX_PROCESSES
  const MAX_PROCESSES := 12

  /** struct process: its slot, its parent, and for the proofs a rank that grows from parent to child. */
  class Process {
    const id: nat
    const parent: Process?
    ghost const rank: nat

    constructor (id: nat, parent: Process?)
      ensures this.id == id && this.parent == parent
      ensures rank == if parent == null then 0 else parent.rank + 1
    {
      this.id, this.parent := id, parent;
      this.rank := if parent == null then 0 else parent.rank + 1;
    }
  }

  type Table = seq<Process?>

  predicate Live(t: Table, p: Process) {
    p.id < |t| && t[p.id] == p
  }

  /** A process sits in the slot of its id; its parent is in the table too; parents form no cycle. */
  ghost predicate Consistent(t: Table) {
    && |t| == MAX_PROCESSES
    && (forall i :: 0 <= i < |t| && t[i] != null ==> t[i].id == i)
    && (forall i :: 0 <= i < |t| && t[i] != null && t[i].parent != null ==>
          Live(t, t[i].parent) && t[i].parent.rank < t[i].rank)
  }

  /** q is p, or was started by p directly or through others. */
  ghost predicate Descends(q: Process, p: Process)
    decreases q.rank
  {
    q == p || (q.parent != null && q.parent.rank < q.rank && Descends(q.parent, p))
  }

  lemma {:induction false} DescendsUp(q: Process, p: Process)
    requires Descends(q, p)
    ensures q == p || p.rank < q.rank
    decreases q.rank
  {
    if q != p { DescendsUp(q.parent, p); }
  }

  lemma {:induction false} DescendsTwice(q: Process, r: Process, p: Process)
    requires Descends(q, r) && Descends(r, p)
    ensures Descends(q, p)
    decreases q.rank
  {
    if q != r { DescendsTwice(q.parent, r, p); }
  }

  lemma {:induction false} AncestorLive(t: Table, q: Process, p: Process)
    requires Consistent(t) && Live(t, q) && Descends(q, p)
    ensures Live(t, p)
    decreases q.rank
  {
    if q != p { AncestorLive(t, q.parent, p); }
  }

  /** Every proper descendant of p descends from a child of p in the table. */
  lemma {:induction false} ThroughChild(t: Table, q: Process, p: Process) returns (c: Process)
    requires Consistent(t) && Live(t, q) && Descends(q, p) && q != p
    ensures Live(t, c) && c.parent == p && Descends(q, c)
    decreases q.rank
  {
    if q.parent == p {
      c := q;
    } else {
      c := ThroughChild(t, q.parent, p);
    }
  }

  /** The slots below n whose process was started by p: q descends from one of those. */
  ghost predicate UnderChild(t: Table, p: Process, n: nat, q: Process) {
    exists c :: 0 <= c < n && c < |t| && t[c] != null && t[c].parent == p && Descends(q, t[c])
  }

  /** Siblings do not descend from each other, nor a parent from its child. */
  lemma ChildNotUnder(t: Table, p: Process, c: Process, d: Process)
    requires Consistent(t) && Live(t, c) && Live(t, d) && d.parent == p
    requires (c.parent == p && c != d) || c == p
    ensures !Descends(c, d)
  {
    if Descends(c, d) {
      DescendsUp(c, d);
      if c != p { DescendsUp(c.parent, d); }
    }
  }

  /** What is left of the table when p and its descendants are gone. */
  ghost function Without(t: Table, p: Process): (u: Table)
    ensures |u| == |t|
    ensures forall i :: 0 <= i < |t| ==> u[i] == if t[i] != null && Descends(t[i], p) then null else t[i]
  {
    seq(|t|, i requires 0 <= i < |t| => if t[i] != null && Descends(t[i], p) then null else t[i])
  }

  /** Removing a process with all its descendants leaves no process without its parent. */
  lemma WithoutConsistent(t: Table, p: Process)
    requires Consistent(t)
    ensures Consistent(Without(t, p))
  {
    var u := Without(t, p);
    forall i | 0 <= i < |u| && u[i] != null && u[i].parent != null
      ensures Live(u, u[i].parent) && u[i].parent.rank < u[i].rank
    {
      assert t[i] == u[i] && Live(t, t[i].parent);
    }
  }

  /** The table when the children of p in the slots below n are gone, with their descendants. */
  ghost function WithoutChildren(t: Table, p: Process, n: nat): (u: Table)
    ensures |u| == |t|
    ensures forall i :: 0 <= i < |t| ==> u[i] == if t[i] != null && UnderChild(t, p, n, t[i]) then null else t[i]
  {
    seq(|t|, i requires 0 <= i < |t| => if t[i] != null && UnderChild(t, p, n, t[i]) then null else t[i])
  }

  ghost predicate IsChild(t: Table, p: Process, i: nat) {
    i < |t| && t[i] != null && t[i].parent == p
  }

  /** A child of p is still there when its turn comes, and so is p. */
  lemma ChildStays(t: Table, p: Process, i: nat)
    requires Consistent(t) && Live(t, p) && i < |t|
    ensures Live(WithoutChildren(t, p, i), p)
    ensures IsChild(t, p, i) <==> IsChild(WithoutChildren(t, p, i), p, i)
    ensures IsChild(t, p, i) ==> Live(WithoutChildren(t, p, i), t[i]) && t[i] != p
  {
    NotUnder(t, p, i, p);
    if IsChild(t, p, i) { NotUnder(t, p, i, t[i]); }
  }

  lemma NotUnder(t: Table, p: Process, n: nat, c: Process)
    requires Consistent(t) && Live(t, p) && Live(t, c) && n <= |t|
    requires c == p || (c.parent == p && n <= c.id)
    ensures !UnderChild(t, p, n, c)
  {
    forall d | 0 <= d < n && d < |t| && t[d] != null && t[d].parent == p
      ensures !Descends(c, t[d])
    {
      ChildNotUnder(t, p, c, t[d]);
    }
  }

  lemma ChildGone(t: Table, p: Process, i: nat)
    requires Consistent(t) && Live(t, p) && i < |t|
    ensures !IsChild(t, p, i) ==> WithoutChildren(t, p, i + 1) == WithoutChildren(t, p, i)
    ensures IsChild(t, p, i) ==> WithoutChildren(t, p, i + 1) == Without(WithoutChildren(t, p, i), t[i])
  {
    forall q: Process
      ensures UnderChild(t, p, i + 1, q) <==> UnderChild(t, p, i, q) || (IsChild(t, p, i) && Descends(q, t[i]))
    {
      if UnderChild(t, p, i, q) {
        var c :| 0 <= c < i && c < |t| && t[c] != null && t[c].parent == p && Descends(q, t[c]);
        assert c < i + 1;
      }
    }
  }

  lemma AllChildrenGone(t: Table, p: Process)
    requires Consistent(t) && Live(t, p)
    ensures WithoutChildren(t, p, MAX_PROCESSES)[p.id := null] == Without(t, p)
  {
    forall k | 0 <= k < |t| && t[k] != null && t[k] != p
      ensures Descends(t[k], p) <==> UnderChild(t, p, MAX_PROCESSES, t[k])
    {
      if Descends(t[k], p) {
        var c := ThroughChild(t, t[k], p);
        assert t[c.id] == c;
      }
      if UnderChild(t, p, MAX_PROCESSES, t[k]) {
        var c :| 0 <= c < MAX_PROCESSES && c < |t| && t[c] != null && t[c].parent == p && Descends(t[k], t[c]);
        ChildDescends(t, p, c);
        DescendsTwice(t[k], t[c], p);
      }
    }
  }

  lemma ChildDescends(t: Table, p: Process, c: nat)
    requires Consistent(t) && IsChild(t, p, c)
    ensures Descends(t[c], p)
  {
    assert Descends(p, p);
  }

  lemma NoChildrenGone(t: Table, p: Process)
    ensures WithoutChildren(t, p, 0) == t
  {}

  /**
   The log names exactly the processes that t has and u has not, each once, and none before a process that
   descends from it: the parent that process_free wakes is never one already freed.
   */
  ghost predicate LogOf(log: seq<Process>, t: Table, u: Table) {
    && (forall i, j :: 0 <= i < j < |log| ==> log[i] != log[j] && !Descends(log[j], log[i]))
    && |u| == |t|
    && (forall i :: 0 <= i < |log| ==> Live(t, log[i]) && u[log[i].id] == null)
    && (forall k :: 0 <= k < |t| && t[k] != null && u[k] == null ==> t[k] in log)
    && (forall k :: 0 <= k < |t| && u[k] != null ==> u[k] == t[k])
  }

  lemma LogTwice(a: seq<Process>, b: seq<Process>, t: Table, u: Table, v: Table)
    requires Consistent(u) && LogOf(a, t, u) && LogOf(b, u, v)
    ensures LogOf(a + b, t, v)
  {
    forall i, j | 0 <= i < j < |a + b|
      ensures (a + b)[i] != (a + b)[j] && !Descends((a + b)[j], (a + b)[i])
    {
      if i < |a| <= j {
        NotFromGone(u, b[j - |a|], a[i]);
      }
    }
    forall k | 0 <= k < |t| && t[k] != null && v[k] == null
      ensures t[k] in a + b
    {
      if u[k] != null { assert u[k] in b; }
    }
  }

  lemma NotFromGone(t: Table, q: Process, p: Process)
    requires Consistent(t) && Live(t, q) && !Live(t, p)
    ensures !Descends(q, p) && q != p
  {
    if Descends(q, p) { AncestorLive(t, q, p); }
  }

  lemma LogGrows(log: seq<Process>, mid: seq<Process>, all: seq<Process>, t: Table, u: Table, v: Table)
    requires Consistent(u) && log <= mid <= all && LogOf(mid[|log|..], t, u) && LogOf(all[|mid|..], u, v)
    ensures log <= all && LogOf(all[|log|..], t, v)
  {
    LogTwice(mid[|log|..], all[|mid|..], t, u, v);
    assert all[|log|..] == mid[|log|..] + all[|mid|..];
  }

  /** r is the process in the lowest slot that holds another process than p. */
  ghost predicate IsFirstOther(t: Table, p: Process, r: Process) {
    exists i :: 0 <= i < |t| && t[i] == r && r != p && forall k :: 0 <= k < i ==> t[k] == null || t[k] == p
  }

  class ProcessTable {
    var slots: Table
    var current: Process?
    var freed: seq<Process>

    constructor (slots: Table, current: Process?)
      ensures this.slots == slots && this.current == current && freed == []
    {
      this.slots, this.current, freed := slots, current, [];
    }

    /** process_get_first_ignore */
    method GetFirstIgnore(p: Process) returns (r: Process?)
      requires |slots| == MAX_PROCESSES
      ensures r == null ==> forall i :: 0 <= i < |slots| ==> slots[i] == null || slots[i] == p
      ensures r != null ==> IsFirstOther(slots, p, r)
    {
      for i := 0 to MAX_PROCESSES
        invariant forall k :: 0 <= k < i ==> slots[k] == null || slots[k] == p
      {
        if slots[i] != null && slots[i] != p {
          return slots[i];
        }
      }
      r := null;
    }

    /**
     process_free: exactly p and its transitive children leave the table, each freed once. The panic for
     want of another process can only come from the outermost call, never from inside the recursion.
     */
    method Free(p: Process, ghost bound: nat) returns (halted: bool)
      requires Consistent(slots) && Live(slots, p) && Ranked(slots, bound)
      modifies this
      ensures Consistent(slots)
      ensures halted <==> Alone(old(slots), p)
      ensures halted ==> slots == old(slots) && freed == old(freed) && current == old(current)
      ensures !halted ==> slots == Without(old(slots), p)
      ensures !halted ==> old(freed) <= freed && LogOf(freed[|old(freed)|..], old(slots), slots)
      ensures old(current) == null || !Descends(old(current), p) ==> current == old(current)
      ensures !halted && old(current) == p && Childless(old(slots), p) ==>
                current != null && Live(slots, current) && IsFirstOther(old(slots), p, current)
      decreases bound - p.rank, 1
    {
      hide WithoutChildren, Without, UnderChild, LogOf, Childless;
      var next := GetFirstIgnore(p);
      if next == null {
        return true;
      }
      ghost var t, log := slots, freed;
      if current == p {
        current := next;
      }
      halted := TerminateSubprocesses(p, bound);
      ghost var mid, midLog := slots, freed;
      freed := freed + [p];
      slots := slots[p.id := null];
      AllChildrenGone(t, p);
      WithoutConsistent(t, p);
      LogOne(mid, p);
      assert freed[|midLog|..] == [p];
      LogGrows(log, midLog, freed, t, mid, slots);
      if Childless(t, p) { ChildlessKeeps(t, p, next); }
      SelfDescends(p);
    }

    /** process_terminate */
    method Terminate(p: Process) returns (halted: bool)
      requires Consistent(slots) && Live(slots, p)
      modifies this
      ensures Consistent(slots)
      ensures halted <==> Alone(old(slots), p)
      ensures halted ==> slots == old(slots) && freed == old(freed) && current == old(current)
      ensures !halted ==> slots == Without(old(slots), p)
      ensures !halted ==> old(freed) <= freed && LogOf(freed[|old(freed)|..], old(slots), slots)
      ensures !halted && old(current) == p && Childless(old(slots), p) ==>
                current != null && Live(slots, current) && IsFirstOther(old(slots), p, current)
    {
      hide WithoutChildren, Without, UnderChild, LogOf, Alone, Descends, IsFirstOther, Childless;
      ghost var bound := SomeBound(slots);
      halted := Free(p, bound);
    }

    /** process_terminate_subprocesses: the loop over the slots finds every child where it was. */
    method TerminateSubprocesses(p: Process, ghost bound: nat) returns (halted: bool)
      requires Consistent(slots) && Live(slots, p) && Ranked(slots, bound)
      modifies this
      ensures Consistent(slots)
      ensures !halted && slots == WithoutChildren(old(slots), p, MAX_PROCESSES) && Live(slots, p)
      ensures old(freed) <= freed && LogOf(freed[|old(freed)|..], old(slots), slots)
      ensures old(current) == null || !Descends(old(current), p) ==> current == old(current)
      ensures Childless(old(slots), p) ==> current == old(current)
      decreases bound - p.rank, 0
    {
      hide WithoutChildren, Without, UnderChild, LogOf, Descends, Ranked;
      ghost var t, log, cur := slots, freed, current;
      halted := false;
      NoChildrenGone(t, p);
      NothingLogged(t);
      assert freed[|log|..] == [];
      for i := 0 to MAX_PROCESSES
        invariant !halted && Consistent(slots) && Live(slots, p) && Ranked(slots, bound)
        invariant slots == WithoutChildren(t, p, i)
        invariant log <= freed && LogOf(freed[|log|..], t, slots)
        invariant cur == null || !Descends(cur, p) ==> current == cur
        invariant Childless(t, p) ==> current == cur
      {
        ghost var mid, midLog := slots, freed;
        ChildStays(t, p, i);
        ChildGone(t, p, i);
        if slots[i] != null && slots[i].parent == p {
          ghost var c := slots[i];
          ChildDescends(mid, p, i);
          if cur != null && Descends(cur, c) { DescendsTwice(cur, c, p); }
          DescendsUp(c, p);
          RankWithin(mid, c, bound);
          halted := Free(slots[i], bound);
          WithoutRanked(mid, c, bound);
          LogGrows(log, midLog, freed, t, mid, slots);
        }
        if i + 1 < MAX_PROCESSES { ChildStays(t, p, i + 1); } else { StaysToTheEnd(t, p); }
      }
    }
  }

  /** No process but p is in the table. */
  ghost predicate Alone(t: Table, p: Process) {
    forall i :: 0 <= i < |t| ==> t[i] == null || t[i] == p
  }

  ghost predicate Childless(t: Table, p: Process) {
    forall i :: 0 <= i < |t| ==> !IsChild(t, p, i)
  }

  ghost predicate Ranked(t: Table, bound: nat) {
    forall i :: 0 <= i < |t| && t[i] != null ==> t[i].rank <= bound
  }

  /** There always is a bound: the table is finite. */
  lemma {:induction false} SomeBound(t: Table) returns (bound: nat)
    ensures Ranked(t, bound)
    decreases |t|
  {
    if t == [] {
      bound := 0;
    } else {
      var n := |t| - 1;
      bound := SomeBound(t[..n]);
      if t[n] != null && t[n].rank > bound { bound := t[n].rank; }
      assert forall i :: 0 <= i < n ==> t[i] == t[..n][i];
    }
  }

  lemma RankWithin(t: Table, c: Process, bound: nat)
    requires Ranked(t, bound) && Live(t, c)
    ensures c.rank <= bound
  {}

  lemma WithoutRanked(t: Table, p: Process, bound: nat)
    requires Ranked(t, bound)
    ensures Ranked(Without(t, p), bound)
  {}

  lemma SelfDescends(p: Process)
    ensures Descends(p, p)
  {}

  lemma StaysToTheEnd(t: Table, p: Process)
    requires Consistent(t) && Live(t, p)
    ensures Live(WithoutChildren(t, p, MAX_PROCESSES), p)
  {
    NotUnder(t, p, MAX_PROCESSES, p);
  }

  lemma LogOne(t: Table, p: Process)
    requires Live(t, p)
    ensures LogOf([p], t, t[p.id := null])
  {}

  lemma NothingLogged(t: Table)
    ensures LogOf([], t, t)
  {}

  lemma ChildlessKeeps(t: Table, p: Process, q: Process)
    requires Consistent(t) && Live(t, p) && Childless(t, p) && q in t && q != p
    ensures Live(Without(t, p), q)
  {
    if Descends(q, p) {
      var c := ThroughChild(t, q, p);
      assert IsChild(t, p, c.id);
    }
  }
}
