/**
 pathparser_parse and pathparser_free with their heap blocks (src/fs/pparser.c:44-150): one block for the
 root, and a text block and a node block for each component.

 What the blocks hold is kept by address, and is gone once the block is freed.
 */
module PathParser {
  import opened Kernel
  import opened Heap
  import opened Strings
  import opened Paths
  import opened PageDirectories

  /** struct path_root and struct path_part; pointers are addresses. */
  datatype Root = Root(drive: int, first: nat)
  datatype Part = Part(text: nat, next: nat)

  // ----- blocks taken, blocks given back

  /** Without blocks taken the table is the same, byte for byte. */
  lemma NothingGrown(t: Table, u: Table)
    requires Grown(t, u, {})
    ensures t == u
  {
    hide WellFormed, Live, FreeBlocks;
    assert Singles(Live(t), {}) == Live(t);
    LiveDeterminesTable(t, u);
  }

  lemma SomethingGrown(t: Table, u: Table, s: set<nat>, b: nat)
    requires Grown(t, u, s) && b in s
    ensures t != u
  {
    assert b in FreeBlocks(t) && b !in FreeBlocks(u);
  }

  /** Freeing one of the blocks taken. */
  lemma GrownLess(t: Table, u: Table, s: set<nat>, b: nat)
    requires Grown(t, u, s) && b in s
    ensures b < |u| && IsFirst(u[b]) && b in Live(u) && Live(u)[b] == 1
    ensures Grown(t, Release(u, b, 1), s - {b})
  {
    hide WellFormed, Live, Release, FreeBlocks;
    assert b in Live(u);
    LiveIsFirst(u, b);
    ReleaseRemovesRun(u, b);
    ReleaseFreesOne(u, b);
    FreeIsNotLive(t, b);
    assert Live(u) - {b} == Singles(Live(t), s - {b});
    assert FreeBlocks(t) - s + {b} == FreeBlocks(t) - (s - {b});
  }

  lemma LiveIsFirst(t: Table, b: nat)
    requires WellFormed(t) && b in Live(t)
    ensures b < |t| && IsFirst(t[b])
  {}

  lemma ReleaseFreesOne(t: Table, b: nat)
    requires b < |t|
    ensures FreeBlocks(Release(t, b, 1)) == FreeBlocks(t) + {b}
  {
    assert IsFree(FREE);
  }

  // ----- the list in memory

  ghost function Addr(saddr: nat, b: nat): (a: nat) {
    saddr + 4096 * b
  }

  ghost function Cells(cells: seq<nat>): set<nat> {
    set b | b in cells
  }

  ghost predicate Distinct(cells: seq<nat>) {
    forall i, j :: 0 <= i < j < |cells| ==> cells[i] != cells[j]
  }

  /** The block of the text, and of the node, of component i; block 0 is the root's. */
  ghost function TextOf(saddr: nat, cells: seq<nat>, i: nat): nat
    requires 2 * i + 2 < |cells|
  {
    Addr(saddr, cells[2 * i + 1])
  }

  ghost function NodeOf(saddr: nat, cells: seq<nat>, i: nat): nat
    requires 2 * i + 2 < |cells|
  {
    Addr(saddr, cells[2 * i + 2])
  }

  /** A pointer to the node of component i, null behind the last. */
  ghost function NodeAt(saddr: nat, cells: seq<nat>, i: nat): nat {
    if 2 * i + 2 < |cells| then NodeOf(saddr, cells, i) else 0
  }

  /** A text buffer of 108 bytes holding the C string c. */
  ghost predicate Holds(buffer: seq<char>, c: string) {
    |buffer| == MAX_PATH && Terminated(buffer, 0) && Text(buffer, 0) == c
  }

  ghost predicate ListedAt(parts: map<nat, Part>, texts: map<nat, seq<char>>, saddr: nat, cells: seq<nat>,
                           i: nat, c: string)
    requires 2 * i + 2 < |cells|
  {
    && NodeOf(saddr, cells, i) in parts && TextOf(saddr, cells, i) in texts
    && parts[NodeOf(saddr, cells, i)] == Part(TextOf(saddr, cells, i), NodeAt(saddr, cells, i + 1))
    && Holds(texts[TextOf(saddr, cells, i)], c)
  }

  /** From component i on, each node holds its component and points to the next. */
  ghost predicate Listed(parts: map<nat, Part>, texts: map<nat, seq<char>>, saddr: nat, cells: seq<nat>,
                         comps: seq<string>, i: nat) {
    && |cells| == 2 * |comps| + 1
    && forall j: nat :: i <= j < |comps| ==> ListedAt(parts, texts, saddr, cells, j, comps[j])
  }

  /** The node for one more component, put behind the last. */
  function Appended(parts: map<nat, Part>, last: nat, part: nat, text: nat): map<nat, Part> {
    var grown := parts[part := Part(text, 0)];
    if last != 0 && last in grown then grown[last := grown[last].(next := part)] else grown
  }

  lemma DistinctAt(cells: seq<nat>, i: nat, j: nat)
    requires Distinct(cells) && i < j < |cells|
    ensures cells[i] != cells[j]
  {}

  lemma LastNode(saddr: nat, cells: seq<nat>, i: nat)
    requires 2 * i + 2 < |cells| && saddr > 0
    ensures NodeAt(saddr, cells, i) == Addr(saddr, cells[2 * i + 2]) != 0
  {}

  lemma ListedGrows(parts: map<nat, Part>, texts: map<nat, seq<char>>, saddr: nat, cells: seq<nat>,
                    comps: seq<string>, s1: nat, s2: nat, buffer: seq<char>, c: string)
    requires Listed(parts, texts, saddr, cells, comps, 0) && Distinct(cells + [s1, s2]) && saddr > 0 && Holds(buffer, c)
    ensures var last := if comps == [] then 0 else NodeAt(saddr, cells, |comps| - 1);
            Listed(Appended(parts, last, Addr(saddr, s2), Addr(saddr, s1)), texts[Addr(saddr, s1) := buffer], saddr,
                   cells + [s1, s2], comps + [c], 0)
  {
    hide Holds, Distinct;
    var more := cells + [s1, s2];
    var last := if comps == [] then 0 else NodeOf(saddr, cells, |comps| - 1);
    var grown := Appended(parts, last, Addr(saddr, s2), Addr(saddr, s1));
    var held := texts[Addr(saddr, s1) := buffer];
    assert more[|cells|] == s1 && more[|cells| + 1] == s2;
    forall j: nat | j < |comps|
      ensures ListedAt(grown, held, saddr, more, j, comps[j])
    {
      assert ListedAt(parts, texts, saddr, cells, j, comps[j]);
      assert more[2 * j + 2] == cells[2 * j + 2] && more[2 * j + 1] == cells[2 * j + 1];
      DistinctAt(more, 2 * j + 2, |cells| + 1);
      DistinctAt(more, 2 * j + 1, |cells|);
      if j + 1 < |comps| {
        assert more[2 * (j + 1) + 2] == cells[2 * (j + 1) + 2];
        DistinctAt(more, 2 * j + 2, 2 * |comps|);
        assert NodeOf(saddr, cells, j) != last;
      }
    }
    if comps != [] { DistinctAt(more, 2 * |comps|, |cells| + 1); }
    assert ListedAt(grown, held, saddr, more, |comps|, c);
  }

  /** Freeing the blocks of component i leaves the list behind it. */
  lemma ListedShrinks(parts: map<nat, Part>, texts: map<nat, seq<char>>, saddr: nat, cells: seq<nat>,
                      comps: seq<string>, i: nat)
    requires Listed(parts, texts, saddr, cells, comps, i) && Distinct(cells) && i < |comps|
    ensures Listed(parts - {NodeOf(saddr, cells, i)}, texts - {TextOf(saddr, cells, i)}, saddr, cells, comps, i + 1)
  {
    hide Holds, Distinct;
    forall j: nat | i + 1 <= j < |comps|
      ensures ListedAt(parts - {NodeOf(saddr, cells, i)}, texts - {TextOf(saddr, cells, i)}, saddr, cells, j, comps[j])
    {
      assert ListedAt(parts, texts, saddr, cells, j, comps[j]);
      DistinctAt(cells, 2 * i + 2, 2 * j + 2);
      DistinctAt(cells, 2 * i + 1, 2 * j + 1);
    }
  }

  lemma CellsGrow(cells: seq<nat>, b: nat)
    requires Distinct(cells) && b !in Cells(cells)
    ensures Distinct(cells + [b]) && Cells(cells + [b]) == Cells(cells) + {b}
  {}

  lemma {:induction false} CellsCount(cells: seq<nat>)
    requires Distinct(cells)
    ensures |Cells(cells)| == |cells|
  {
    if cells != [] {
      var n := |cells| - 1;
      assert cells == cells[..n] + [cells[n]];
      CellsCount(cells[..n]);
      CellsGrow(cells[..n], cells[n]);
    }
  }

  /** The blocks still taken when the first i components are gone: the root's and the later ones. */
  ghost function Rest(cells: seq<nat>, k: nat): set<nat>
    requires 1 <= k <= |cells|
  {
    {cells[0]} + Cells(cells[k..])
  }

  lemma RestEnds(cells: seq<nat>)
    requires Distinct(cells) && cells != []
    ensures Rest(cells, 1) == Cells(cells) && Rest(cells, |cells|) == {cells[0]}
    ensures Rest(cells, 1) - {cells[0]} == Cells(cells[1..])
    ensures forall k :: 1 <= k <= |cells| ==> cells[0] in Rest(cells, k)
  {
    assert cells == [cells[0]] + cells[1..];
  }

  lemma RestShrinks(cells: seq<nat>, k: nat)
    requires Distinct(cells) && 1 <= k < |cells|
    ensures cells[k] in Rest(cells, k) && Rest(cells, k + 1) == Rest(cells, k) - {cells[k]}
  {
    assert cells[k..] == [cells[k]] + cells[k + 1..];
    assert cells[0] != cells[k];
  }

  lemma BlockAddress(saddr: nat, b: nat)
    requires Aligned(saddr)
    ensures Aligned(Addr(saddr, b)) && (Addr(saddr, b) - saddr) / 4096 == b
  {}

  // ----- the code

  /** Parsing needs at most this many free blocks: 105 to keep, one to give back. */
  const BLOCKS := 106

  class Parser {
    const heap: KernelHeap
    var roots: map<nat, Root>
    var parts: map<nat, Part>
    var texts: map<nat, seq<char>>

    constructor (heap: KernelHeap)
      ensures this.heap == heap
    {
      this.heap := heap;
      roots, parts, texts := map[], map[], map[];
    }

    /** The blocks in cells hold the list of comps, from component i on. */
    ghost predicate Chain(cells: seq<nat>, comps: seq<string>, i: nat)
      reads this, heap.entries
    {
      && heap.Valid() && heap.entries.Length <= 0x8_0000
      && Distinct(cells) && Listed(parts, texts, heap.saddr, cells, comps, i)
    }

    /** kfree of a block that is taken. */
    method FreeBlock(ptr: nat, ghost b: nat, ghost t: Table, ghost used: set<nat>)
      requires heap.Valid() && heap.entries.Length <= 0x8_0000 && Grown(t, heap.entries[..], used) && b in used
      requires ptr == Addr(heap.saddr, b)
      modifies heap.entries
      ensures heap.Valid() && Grown(t, heap.entries[..], used - {b})
    {
      hide WellFormed, Grown, Live, Release, IsFirst;
      GrownLess(t, heap.entries[..], used, b);
      BlockAddress(heap.saddr, b);
      var halted := heap.KFree(ptr);
    }

    /**
     pathparser_get_path_part: the text up to the next slash in a buffer of its own, or null if there is
     none. The writes stay inside the buffer, and the last byte stays zero.
     */
    method GetPathPart(path: string, pos: nat, ghost t: Table, ghost used: set<nat>)
        returns (text: nat, next: nat, ghost s: nat)
      requires heap.Valid() && heap.entries.Length <= 0x8_0000
      requires Grown(t, heap.entries[..], used) && |used| < |FreeBlocks(t)|
      requires pos <= |path| < MAX_PATH && NUL !in path
      modifies heap.entries, this`texts
      ensures heap.Valid() && next == Skip(path, NextEnd(path, "/", pos))
      ensures var e := NextEnd(path, "/", pos);
              if e == pos then text == 0 && Grown(t, heap.entries[..], used) && texts == old(texts)
              else
                && s !in used && Grown(t, heap.entries[..], used + {s}) && text == Addr(heap.saddr, s)
                && exists buffer :: texts == old(texts)[text := buffer] && Holds(buffer, path[pos..e])
    {
      hide WellFormed, Grown, NextEnd, Holds;
      var block;
      block, s := MallocOne(heap, MAX_PATH, t, used);
      var buffer := seq(MAX_PATH, _ => NUL);
      next := pos;
      while next < |path| && path[next] != '/'
        invariant pos <= next <= |path| && NextEnd(path, "/", pos) == NextEnd(path, "/", next)
        invariant |buffer| == MAX_PATH && buffer[..next - pos] == path[pos..next]
        invariant forall k :: next - pos <= k < MAX_PATH ==> buffer[k] == NUL
        invariant heap.Valid() && Grown(t, heap.entries[..], used + {s}) && texts == old(texts)
      {
        PassedOver(path, next);
        assert path[pos..next + 1] == path[pos..next] + [path[next]];
        buffer := buffer[next - pos := path[next]];
        next := next + 1;
      }
      EmptyPiece(path, next);
      ghost var e := next;
      var found := next > pos;
      if next < |path| {
        next := next + 1;
      }
      if !found {
        FreeBlock(block, s, t, used + {s});
        assert used + {s} - {s} == used;
        return 0, next, s;
      }
      HoldsPiece(path, pos, e, buffer);
      text := block;
      texts := texts[text := buffer];
    }

    /**
     pathparser_parse_path_part: unless the next component is empty, its node now ends the list that has
     the nodes of comps.
     */
    method ParsePathPart(last: nat, path: string, pos: nat, ghost t: Table, ghost cells: seq<nat>,
                         ghost comps: seq<string>)
        returns (part: nat, next: nat, ghost more: seq<nat>)
      requires Chain(cells, comps, 0) && Grown(t, heap.entries[..], Cells(cells))
      requires last == (if comps == [] then 0 else NodeAt(heap.saddr, cells, |comps| - 1))
      requires pos <= |path| < MAX_PATH && NUL !in path
      requires |cells| + 1 + |Piece(path, pos)| <= |FreeBlocks(t)|
      modifies heap.entries, this`texts, this`parts
      ensures Grown(t, heap.entries[..], Cells(more)) && next == Skip(path, NextEnd(path, "/", pos)) && cells <= more
      ensures Chain(more, comps + Piece(path, pos), 0) && |more| == |cells| + 2 * |Piece(path, pos)|
      ensures if Piece(path, pos) == [] then part == 0 else part == NodeAt(heap.saddr, more, |comps|) != 0
    {
      hide WellFormed, Grown, NextEnd, Holds, Listed, ListedAt, Distinct, NodeAt;
      var text;
      ghost var s;
      CellsCount(cells);
      text, next, s := GetPathPart(path, pos, t, Cells(cells));
      if text == 0 {
        assert comps + Piece(path, pos) == comps;
        return 0, next, cells;
      }
      ghost var buffer :| texts == old(texts)[text := buffer] && Holds(buffer, path[pos..NextEnd(path, "/", pos)]);
      part, more := AddNode(last, text, t, cells, comps, s, old(texts), buffer, path[pos..NextEnd(path, "/", pos)]);
    }

    /** The node of a part whose text has been read. */
    method AddNode(last: nat, text: nat, ghost t: Table, ghost cells: seq<nat>, ghost comps: seq<string>, ghost s: nat,
                   ghost before: map<nat, seq<char>>, ghost buffer: seq<char>, ghost c: string)
        returns (part: nat, ghost more: seq<nat>)
      requires heap.Valid() && heap.entries.Length <= 0x8_0000 && Distinct(cells) && s !in Cells(cells)
      requires Listed(parts, before, heap.saddr, cells, comps, 0) && Grown(t, heap.entries[..], Cells(cells) + {s})
      requires text == Addr(heap.saddr, s) && texts == before[text := buffer] && Holds(buffer, c)
      requires last == (if comps == [] then 0 else NodeAt(heap.saddr, cells, |comps| - 1))
      requires |cells| + 2 <= |FreeBlocks(t)|
      modifies heap.entries, this`parts
      ensures Chain(more, comps + [c], 0) && Grown(t, heap.entries[..], Cells(more))
      ensures part == NodeAt(heap.saddr, more, |comps|) != 0 && cells <= more && |more| == |cells| + 2
    {
      hide WellFormed, Grown, Holds, Distinct, FreeBlocks, Appended, Listed, NodeAt, Cells;
      ghost var node;
      CellsGrow(cells, s);
      CellsCount(cells + [s]);
      part, node := MallocOne(heap, 8, t, Cells(cells + [s]));
      CellsGrow(cells + [s], node);
      more := cells + [s, node];
      assert more == cells + [s] + [node];
      ListedLength(parts, before, heap.saddr, cells, comps);
      LastNode(heap.saddr, more, |comps|);
      ListedGrows(parts, before, heap.saddr, cells, comps, s, node, buffer, c);
      parts := Appended(parts, last, part, text);
    }

    /** The rest of pathparser_parse: one more component, and on from there while there are any. */
    method ParseRest(first: nat, path: string, from: nat, ghost t: Table, ghost cells: seq<nat>,
                     ghost comps: seq<string>)
        returns (ghost more: seq<nat>)
      requires Chain(cells, comps, 0) && Grown(t, heap.entries[..], Cells(cells))
      requires first == (if comps == [] then 0 else NodeAt(heap.saddr, cells, |comps| - 1))
      requires from <= |path| < MAX_PATH && NUL !in path
      requires |cells| + 2 * |Components(path, from)| + 1 <= |FreeBlocks(t)|
      modifies heap.entries, this`texts, this`parts
      ensures Chain(more, comps + Components(path, from), 0) && Grown(t, heap.entries[..], Cells(more)) && cells <= more
    {
      hide WellFormed, Grown, NextEnd, Listed, Distinct, Components, Piece;
      more := cells;
      ComponentsStep(path, from);
      ghost var done := comps;
      var part, pos;
      part, pos, more := ParsePathPart(first, path, from, t, more, done);
      done := done + Piece(path, from);
      while part != 0
        invariant pos <= |path| && Chain(more, done, 0) && Grown(t, heap.entries[..], Cells(more)) && cells <= more
        invariant part == 0 ==> done == comps + Components(path, from)
        invariant part != 0 ==> done != [] && part == NodeAt(heap.saddr, more, |done| - 1)
        invariant part != 0 ==> done + Components(path, pos) == comps + Components(path, from)
        invariant part != 0 ==> |more| + 2 * |Components(path, pos)| + 1 <= |FreeBlocks(t)|
        decreases |path| - pos, part
      {
        ComponentsStep(path, pos);
        ghost var piece := Piece(path, pos);
        part, pos, more := ParsePathPart(part, path, pos, t, more, done);
        done := done + piece;
      }
    }

    /** What pathparser_parse leaves at root: the drive, and the components unless they leak. */
    ghost predicate Parsed(path: string, root: nat, cells: seq<nat>)
      requires ValidFormat(path)
      reads this, heap.entries
    {
      && Chain(cells, Allocated(path, 3), 0) && root == Addr(heap.saddr, cells[0]) && root in roots
      && roots[root] == Root(path[0] as int - '0' as int, if Leaks(path) then 0 else NodeAt(heap.saddr, cells, 0))
    }

    /** pathparser_parse, with a heap that has enough free blocks. */
    method Parse(path: string) returns (root: nat, ghost cells: seq<nat>)
      requires heap.Valid() && heap.entries.Length <= 0x8_0000 && |FreeBlocks(heap.entries[..])| >= BLOCKS
      requires NUL !in path
      modifies heap.entries, this
      ensures heap.Valid()
      ensures root == 0 <==> |path| >= 108 || !ValidFormat(path)
      ensures root == 0 ==> heap.entries[..] == old(heap.entries[..])
      ensures root != 0 ==> Parsed(path, root, cells) && Grown(old(heap.entries[..]), heap.entries[..], Cells(cells))
    {
      hide WellFormed, Grown, NextEnd, Distinct, Piece, Components, Allocated, Leaks, ListedAt;
      ghost var t := heap.entries[..];
      if |path| >= MAX_PATH || !ValidFormat(path) {
        return 0, [];
      }
      var drive := path[0] as int - '0' as int;
      ghost var s;
      NothingDrawn(t);
      root, s := MallocOne(heap, 8, t, {});
      roots := roots[root := Root(drive, 0)];
      cells := [s];
      OneCell(parts, texts, heap.saddr, s);
      var pos := 3;
      var first;
      RestBound(path);
      first, pos, cells := ParsePathPart(0, path, pos, t, cells, []);
      if first != 0 {
        roots := roots[root := Root(drive, first)];
      }
      ghost var done := Piece(path, 3);
      assert [] + done == done;
      ghost var some := cells;
      cells := ParseRest(first, path, pos, t, cells, done);
      AllocatedPieces(path);
      assert done != [] ==> NodeAt(heap.saddr, some, 0) == NodeAt(heap.saddr, cells, 0);
    }

    /** One round of pathparser_free: the text and the node of component i, read before they are freed. */
    method FreePart(part: nat, ghost i: nat, ghost t: Table, ghost cells: seq<nat>, ghost comps: seq<string>)
        returns (nextPart: nat)
      requires Chain(cells, comps, i) && i < |comps| && part == NodeAt(heap.saddr, cells, i)
      requires |cells| == 2 * |comps| + 1 && Grown(t, heap.entries[..], Rest(cells, 2 * i + 1))
      modifies heap.entries, this`parts, this`texts
      ensures Chain(cells, comps, i + 1) && nextPart == NodeAt(heap.saddr, cells, i + 1)
      ensures Grown(t, heap.entries[..], Rest(cells, 2 * i + 3))
    {
      hide WellFormed, Grown, Distinct, Holds, Rest;
      assert ListedAt(parts, texts, heap.saddr, cells, i, comps[i]);
      var text := parts[part].text;
      nextPart := parts[part].next;
      ListedShrinks(parts, texts, heap.saddr, cells, comps, i);
      RestShrinks(cells, 2 * i + 1);
      RestShrinks(cells, 2 * i + 2);
      FreeBlock(text, cells[2 * i + 1], t, Rest(cells, 2 * i + 1));
      texts := texts - {text};
      FreeBlock(part, cells[2 * i + 2], t, Rest(cells, 2 * i + 2));
      parts := parts - {part};
    }

    /**
     pathparser_free: every text and node the root leads to, and the root, each freed once. If the root
     leads nowhere the blocks of the components stay taken.
     */
    method Free(root: nat, ghost t: Table, ghost cells: seq<nat>, ghost comps: seq<string>)
      requires Chain(cells, comps, 0) && |cells| == 2 * |comps| + 1 && Grown(t, heap.entries[..], Cells(cells))
      requires root == Addr(heap.saddr, cells[0]) && root in roots
      requires roots[root].first == 0 || roots[root].first == NodeAt(heap.saddr, cells, 0)
      modifies heap.entries, this
      ensures heap.Valid()
      ensures Grown(t, heap.entries[..], if old(roots[root].first) == 0 then Cells(cells[1..]) else {})
      ensures root !in roots
    {
      hide WellFormed, Grown, Distinct, Listed, Rest;
      var part := roots[root].first;
      ghost var first, i := part, 0;
      RestEnds(cells);
      while part != 0
        invariant i <= |comps| && Chain(cells, comps, i) && (first == 0 ==> i == 0)
        invariant part == if first == 0 then 0 else NodeAt(heap.saddr, cells, i)
        invariant Grown(t, heap.entries[..], Rest(cells, 2 * i + 1)) && roots == old(roots)
        decreases |comps| - i
      {
        part := FreePart(part, i, t, cells, comps);
        i := i + 1;
      }
      assert first != 0 ==> 2 * i + 1 == |cells|;
      assert {cells[0]} - {cells[0]} == {};
      FreeBlock(root, cells[0], t, Rest(cells, 2 * i + 1));
      roots := roots - {root};
    }

    /** Parsing a path and freeing the result restores the heap byte for byte exactly when no node leaks. */
    method ParseThenFree(path: string)
      requires heap.Valid() && heap.entries.Length <= 0x8_0000 && |FreeBlocks(heap.entries[..])| >= BLOCKS
      requires NUL !in path
      modifies heap.entries, this
      ensures heap.Valid()
      ensures heap.entries[..] == old(heap.entries[..]) <==> !(|path| < MAX_PATH && ValidFormat(path) && Leaks(path))
    {
      hide WellFormed, Grown, Distinct, Listed, Components, Allocated;
      ghost var t := heap.entries[..];
      var root;
      ghost var cells;
      root, cells := Parse(path);
      if root != 0 {
        ghost var comps := Allocated(path, 3);
        NodesWithoutFirst(path);
        ListedLength(parts, texts, heap.saddr, cells, comps);
        Free(root, t, cells, comps);
        if Leaks(path) {
          SomethingGrown(t, heap.entries[..], Cells(cells[1..]), cells[1..][0]);
        } else {
          assert comps == [] ==> Cells(cells[1..]) == {};
          NothingGrown(t, heap.entries[..]);
        }
      }
    }
  }

  lemma ListedLength(parts: map<nat, Part>, texts: map<nat, seq<char>>, saddr: nat, cells: seq<nat>, comps: seq<string>)
    requires Listed(parts, texts, saddr, cells, comps, 0)
    ensures |cells| == 2 * |comps| + 1
  {}

  /** The next component, if it is not empty. */
  ghost function Piece(path: string, i: nat): (p: seq<string>)
    requires i <= |path|
    ensures |p| <= 1
  {
    var e := NextEnd(path, "/", i);
    if e == i then [] else [path[i..e]]
  }

  lemma ComponentsStep(path: string, i: nat)
    requires i <= |path|
    ensures Components(path, i) == Piece(path, i) + (
      if Piece(path, i) == [] then [] else Components(path, Skip(path, NextEnd(path, "/", i))))
    ensures Piece(path, i) != [] ==> Skip(path, NextEnd(path, "/", i)) > i
  {}

  lemma AllocatedPieces(path: string)
    requires ValidFormat(path)
    ensures Allocated(path, 3) == Piece(path, 3) + Components(path, Skip(path, NextEnd(path, "/", 3)))
    ensures Leaks(path) <==> Piece(path, 3) == [] && Allocated(path, 3) != []
  {
    hide NextEnd;
    NodesWithoutFirst(path);
    ComponentsStep(path, 3);
  }

  lemma RestBound(path: string)
    requires 3 <= |path| < MAX_PATH
    ensures 2 * |Piece(path, 3)| + 2 * |Components(path, Skip(path, NextEnd(path, "/", 3)))| <= BLOCKS - 2
  {
    ComponentsStep(path, 3);
    ComponentsBound(path, 3);
    ComponentsBound(path, Skip(path, 3));
  }

  lemma OneCell(parts: map<nat, Part>, texts: map<nat, seq<char>>, saddr: nat, s: nat)
    ensures Listed(parts, texts, saddr, [s], [], 0) && Distinct([s]) && Cells([s]) == {} + {s}
  {}

  lemma PassedOver(path: string, i: nat)
    requires i < |path| && path[i] != '/'
    ensures NextEnd(path, "/", i) == NextEnd(path, "/", i + 1)
  {
    assert !IsDelim(path[i], "/");
  }

  lemma HoldsPiece(path: string, pos: nat, e: nat, buffer: seq<char>)
    requires pos <= e <= |path| < MAX_PATH && NUL !in path && |buffer| == MAX_PATH
    requires buffer[..e - pos] == path[pos..e] && buffer[e - pos] == NUL
    ensures Holds(buffer, path[pos..e])
  {
    forall k | 0 <= k < e - pos
      ensures buffer[k] != NUL
    {
      assert buffer[k] == path[pos..e][k] == path[pos + k];
    }
    TextIs(buffer, 0, e - pos);
  }
}
