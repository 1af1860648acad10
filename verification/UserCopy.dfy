/**
 Copying a user string into the kernel (copy_string_from_task, src/task/task.c:152-195): a temporary heap
 block is mapped into the task for the time of one strncpy, and the page it displaced is put back.

 The bytes of physical memory are an array of their own here, beside the heap table and the page frames.
 */
module UserCopy {
  import opened Kernel
  import opened Bits
  import opened Heap
  import opened Paging
  import opened Strings
  import opened ProcessMemory
  import PageDirectories

  /** PAGING_PAGE_WRITEABLE | PAGING_PAGE_PRESENT | PAGING_ACCESS_FROM_ALL */
  const MAPPED: Word := 0x07

  // ----- memory seen through a page map

  predicate Present(entry: Word) {
    And(entry, PRESENT) != 0
  }

  /** The address k bytes after a. */
  function Plus(a: Word, k: nat): Word {
    (a + k) % WORD
  }

  /** Address a reads c, from a place in memory outside p..q. */
  ghost predicate Reads(m: seq<char>, f: FlatMap, a: Word, c: char, p: nat, q: nat) {
    Translate(f, a) < |m| && !(p <= Translate(f, a) < q) && m[Translate(f, a)] == c
  }

  /** The C string at a, cut off after n characters, is text; none of it lies in p..q. */
  ghost predicate Source(m: seq<char>, f: FlatMap, a: Word, n: nat, text: string, p: nat, q: nat) {
    && |text| <= n && NUL !in text
    && forall k: nat :: k < |Copied(text, n)| ==> Reads(m, f, Plus(a, k), Copied(text, n)[k], p, q)
  }

  /** The string is determined by memory and map. */
  lemma SourceUnique(m: seq<char>, f: FlatMap, a: Word, n: nat, s: string, t: string, p: nat, q: nat)
    requires Source(m, f, a, n, s, p, q) && Source(m, f, a, n, t, p, q)
    ensures s == t
  {
    hide Translate, Plus;
    NotShorter(m, f, a, n, s, t, p, q);
    NotShorter(m, f, a, n, t, s, p, q);
    forall k: nat | k < |s|
      ensures s[k] == t[k]
    {
      assert Copied(s, n)[k] == s[k] && Copied(t, n)[k] == t[k];
    }
  }

  lemma NotShorter(m: seq<char>, f: FlatMap, a: Word, n: nat, s: string, t: string, p: nat, q: nat)
    requires Source(m, f, a, n, s, p, q) && Source(m, f, a, n, t, p, q)
    ensures |t| <= |s|
  {
    hide Translate, Plus;
    var k := |s|;
    assert k < |Copied(s, n)| ==> Reads(m, f, Plus(a, k), NUL, p, q);
    forall j: nat | j < |t|
      ensures Reads(m, f, Plus(a, j), t[j], p, q) && t[j] != NUL
    {
      assert Copied(t, n)[j] == t[j];
    }
  }

  /** The n bytes from a on are mapped to the n bytes of memory from p on. */
  ghost predicate Window(f: FlatMap, a: Word, p: nat, n: nat) {
    forall k: nat :: k < n ==> Translate(f, Plus(a, k)) == p + k
  }

  /** Mapping the one page of tmp gives access to a page of memory from tmp on, and no more is needed. */
  lemma OnePageIsEnough(f: FlatMap, tmp: Word, n: nat)
    requires Aligned(tmp) && n <= 4096
    ensures var g := f[tmp / 4096 := Or32(tmp, MAPPED)]; Window(g, tmp, tmp, n) && IsOpen(g[tmp / 4096])
  {
    hide Or32, And, Translate;
    var g := f[tmp / 4096 := Or32(tmp, MAPPED)];
    forall k: nat | k < n
      ensures Translate(g, Plus(tmp, k)) == tmp + k
    {
      if k < 4096 { TranslatePacked(g, tmp + k, tmp, MAPPED); }
    }
    TestPacked(tmp, MAPPED, 0x01);
    TestPacked(tmp, MAPPED, 0x02);
    TestPacked(tmp, MAPPED, 0x04);
    MappedIsOpen();
  }

  lemma MappedIsOpen()
    ensures IsOpen(MAPPED)
  {
    assert And(MAPPED, 0x01) == 0x01 && And(MAPPED, 0x02) == 0x02 && And(MAPPED, 0x04) == 0x04;
  }

  /** Every address translates to itself. */
  ghost predicate Identity(f: FlatMap) {
    forall a: Word :: Translate(f, a) == a
  }

  /** The map paging_new_4gb builds is such a map: the kernel sees physical memory. */
  lemma NewSpaceIsIdentity(flags: Word)
    requires flags < 4096
    ensures Identity(PageDirectories.IdentityMap(flags))
  {
    hide Or32, Translate;
    forall a: Word
      ensures Translate(PageDirectories.IdentityMap(flags), a) == a
    {
      TranslatePacked(PageDirectories.IdentityMap(flags), a, a - a % 4096, flags);
    }
  }

  /** The user string at a: its pages are present, and are neither the page nor the block of tmp. */
  ghost predicate UserText(m: seq<char>, f: FlatMap, a: Word, n: nat, text: string, tmp: Word) {
    && Source(m, f, a, n, text, tmp, tmp + 4096)
    && forall k: nat :: k < |Copied(text, n)| ==> OtherPage(f, Plus(a, k), tmp)
  }

  ghost predicate OtherPage(f: FlatMap, a: Word, tmp: Word) {
    Present(f[a / 4096]) && a / 4096 != tmp / 4096
  }

  /** Two memories agree outside the bytes p..q. */
  ghost predicate SameBut(m: seq<char>, w: seq<char>, p: nat, q: nat) {
    |m| == |w| && forall a :: 0 <= a < |m| && !(p <= a < q) ==> w[a] == m[a]
  }

  /** Neither remapping the page of tmp nor writing to its block touches the user string. */
  lemma TextSurvives(m: seq<char>, w: seq<char>, f: FlatMap, e: Word, a: Word, n: nat, text: string, tmp: Word)
    requires UserText(m, f, a, n, text, tmp) && SameBut(m, w, tmp, tmp + 4096)
    ensures Source(w, f[tmp / 4096 := e], a, n, text, tmp, tmp + 4096)
  {
    hide PageOf, Plus, Present, Copied;
    forall k: nat | k < |Copied(text, n)|
      ensures Reads(w, f[tmp / 4096 := e], Plus(a, k), Copied(text, n)[k], tmp, tmp + 4096)
    {
      assert Reads(m, f, Plus(a, k), Copied(text, n)[k], tmp, tmp + 4096);
      assert OtherPage(f, Plus(a, k), tmp);
    }
  }

  lemma TextStays(m: seq<char>, w: seq<char>, f: FlatMap, a: Word, n: nat, text: string, tmp: Word)
    requires UserText(m, f, a, n, text, tmp) && SameBut(m, w, tmp, tmp + 4096)
    ensures UserText(w, f, a, n, text, tmp) && |text| <= n && NUL !in text
  {
    assert f[tmp / 4096 := f[tmp / 4096]] == f;
    TextSurvives(m, w, f, f[tmp / 4096], a, n, text, tmp);
  }

  lemma NarrowSource(m: seq<char>, f: FlatMap, a: Word, n: nat, text: string, p: nat, q: nat, r: nat)
    requires Source(m, f, a, n, text, p, q) && r <= q
    ensures Source(m, f, a, n, text, p, r)
  {
    hide Translate, Plus, Copied;
    forall k: nat | k < |Copied(text, n)|
      ensures Reads(m, f, Plus(a, k), Copied(text, n)[k], p, r)
    {
      assert Reads(m, f, Plus(a, k), Copied(text, n)[k], p, q);
    }
  }

  /** What strncpy has written at tmp is, seen by the kernel, a source with the same text. */
  lemma CopyIsSource(m: seq<char>, f: FlatMap, tmp: Word, n: nat, text: string, p: nat)
    requires |text| <= n && NUL !in text && tmp + n <= |m| <= WORD && Identity(f)
    requires p + n <= tmp || tmp + n <= p
    ensures Source(Written(m, tmp, Copied(text, n)), f, tmp, n, text, p, p + n)
  {
    hide Translate, Copied;
    var w := Written(m, tmp, Copied(text, n));
    forall k: nat | k < |Copied(text, n)|
      ensures Reads(w, f, Plus(tmp, k), Copied(text, n)[k], p, p + n)
    {
      assert Translate(f, tmp + k) == tmp + k;
    }
  }

  lemma IdentityWindow(f: FlatMap, p: Word, n: nat)
    requires Identity(f) && p + n <= WORD
    ensures Window(f, p, p, n)
  {
    hide Translate;
  }

  // ----- the code

  /** memset to zero on the kernel page. */
  method Clear(memory: array<char>, p: nat, n: nat)
    requires p + n <= memory.Length
    modifies memory
    ensures SameBut(old(memory[..]), memory[..], p, p + n)
    ensures forall k :: p <= k < p + n ==> memory[k] == NUL
  {
    for i := 0 to n
      invariant forall a :: 0 <= a < memory.Length ==> memory[a] == if p <= a < p + i then NUL else old(memory[a])
    {
      memory[p + i] := NUL;
    }
  }

  /** strncpy with every access going through the page map of directory d. */
  method StrncpyThrough(memory: array<char>, ram: Ram, d: nat, dest: Word, src: Word, n: nat,
                        ghost p: nat, ghost text: string)
    requires IsDirectory(ram.frames, d) && p + n <= memory.Length
    requires Window(Flat(ram.frames, d), dest, p, n)
    requires Source(memory[..], Flat(ram.frames, d), src, n, text, p, p + n)
    modifies memory
    ensures memory[..] == Written(old(memory[..]), p, Copied(text, n))
  {
    hide Translate, Plus, IsDirectory, Flat, Written;
    ghost var f, before := Flat(ram.frames, d), memory[..];
    var i := 0;
    assert text[..0] == [];
    while i < n
      invariant 0 <= i <= n && i <= |text|
      invariant memory[..] == Written(before, p, text[..i])
    {
      assert Reads(before, f, Plus(src, i), Copied(text, n)[i], p, p + n);
      assert Translate(f, Plus(dest, i)) == p + i;
      var from := GetPhysicalAddress(ram, d, Plus(src, i));
      var to := GetPhysicalAddress(ram, d, Plus(dest, i));
      if memory[from.value] == NUL {
        break;
      }
      WrittenStep(before, p, text[..i], text[i]);
      assert text[..i] + [text[i]] == text[..i + 1];
      memory[to.value] := memory[from.value];
      i := i + 1;
    }
    assert text[..i] == text;
    if i < n {
      assert Translate(f, Plus(dest, i)) == p + i;
      WrittenStep(before, p, text, NUL);
      var to := GetPhysicalAddress(ram, d, Plus(dest, i));
      memory[to.value] := NUL;
    }
  }

  /** A directory that shares no frame with d keeps its map when d is remapped. */
  lemma OtherDirectory(before: Frames, after: Frames, d: nat, g: FlatMap, e: nat)
    requires IsDirectory(before, d) && IsDirectory(before, e) && Footprint(before, d) !! Footprint(before, e)
    requires Remaps(before, after, d, g)
    ensures IsDirectory(after, e) && Flat(after, e) == Flat(before, e)
    ensures Footprint(after, d) !! Footprint(after, e)
  {
    hide IsDirectory, Flat, Footprint;
    FootprintIsThere(before, e);
    FlatFrame(before, after, e);
  }

  lemma FootprintIsThere(frames: Frames, d: nat)
    requires IsDirectory(frames, d)
    ensures Footprint(frames, d) <= frames.Keys
  {}

  /** Mapping a page and putting its old entry back leaves the page map as it was. */
  lemma MapRestores(before: Frames, mid: Frames, after: Frames, d: nat, p: nat, e: Word)
    requires IsDirectory(before, d) && p < 0x10_0000 && Remaps(before, mid, d, Flat(before, d)[p := e])
    requires IsDirectory(mid, d) && Remaps(mid, after, d, Flat(mid, d)[p := Flat(before, d)[p]])
    ensures Remaps(before, after, d, Flat(before, d))
  {
    hide IsDirectory, Flat, Footprint;
    assert Flat(before, d)[p := e][p := Flat(before, d)[p]] == Flat(before, d);
  }

  /** The kernel: its heap, page frames, bytes of memory, own page directory, and the one in use. */
  class Machine {
    const heap: KernelHeap
    const ram: Ram
    const memory: array<char>
    const kernel: nat
    var current: nat

    constructor (heap: KernelHeap, ram: Ram, memory: array<char>, kernel: nat)
      ensures this.heap == heap && this.ram == ram && this.memory == memory && this.kernel == kernel
      ensures current == kernel
    {
      this.heap, this.ram, this.memory, this.kernel, current := heap, ram, memory, kernel, kernel;
    }

    ghost predicate Valid()
      reads heap.entries, ram
    {
      && heap.Valid() && HeapAt(heap.saddr, heap.entries.Length)
      && heap.saddr + 4096 * heap.entries.Length <= memory.Length <= WORD && memory.Length >= 4096
      && heap.entries as object != memory
      && IsDirectory(ram.frames, kernel) && Identity(Flat(ram.frames, kernel))
    }

    /** d is the directory of a task: it shares no frame with the kernel's. */
    ghost predicate TaskDirectory(d: nat)
      requires Valid()
      reads heap.entries, ram
    {
      IsDirectory(ram.frames, d) && Footprint(ram.frames, d) !! Footprint(ram.frames, kernel)
    }

    /** kzalloc, of less than a page: a null pointer is cleared like any other. */
    method KZalloc(size: int) returns (r: Outcome<nat>)
      requires Valid() && size < 4096
      modifies heap.entries, memory
      ensures Valid()
      ensures var t := old(heap.entries[..]);
              match Allocate(t, BlocksFor(size % WORD))
              case Block(s) =>
                var p := heap.saddr + 4096 * s;
                && r == Done(p) && heap.entries[..] == Take(t, s, BlocksFor(size % WORD))
                && SameBut(old(memory[..]), memory[..], p, p + 4096)
                && (forall k :: p <= k < p + size ==> memory[..][k] == NUL)
              case NoMemory =>
                && r == Done(0) && heap.entries[..] == t
                && SameBut(old(memory[..]), memory[..], 0, if size > 0 then size else 0)
                && (forall k :: 0 <= k < size ==> memory[..][k] == NUL)
              case Stop => r == Halted && heap.entries[..] == t && memory[..] == old(memory[..])
    {
      hide Identity, IsDirectory, Flat, WellFormed, Allocate, BlocksFor, Take;
      AllocatedFits(heap.entries[..], BlocksFor(size % WORD));
      r := heap.Malloc(size % WORD);
      if r.Done? {
        Clear(memory, r.value, if size > 0 then size else 0);
      }
    }

    /** The part that runs with the task's pages: map tmp, copy, go back and restore the entry. */
    method Fetch(d: nat, tmp: Word, virt: Word, n: nat, ghost text: string) returns (res: int)
      requires Valid() && TaskDirectory(d) && Aligned(tmp) && n < 4096 && tmp + 4096 <= memory.Length
      requires UserText(memory[..], Flat(ram.frames, d), virt, n, text, tmp)
      modifies ram, memory, this`current
      ensures Valid() && TaskDirectory(d) && current == kernel && res == 0
      ensures Remaps(old(ram.frames), ram.frames, d, Flat(old(ram.frames), d))
      ensures memory[..] == Written(old(memory[..]), tmp, Copied(text, n))
    {
      hide IsDirectory, Flat, Footprint, Translate, Remaps, Identity, Written, Or32, WellFormed, Source, UserText;
      ghost var before, m := ram.frames, memory[..];
      ghost var e := Or32(tmp, MAPPED);
      var oldEntry := Get(ram, d, tmp);
      res := Map(ram, d, tmp, tmp, MAPPED);
      ghost var mid := ram.frames;
      RemapsDirectory(before, mid, d, Flat(before, d)[tmp / 4096 := e]);
      OtherDirectory(before, mid, d, Flat(before, d)[tmp / 4096 := e], kernel);
      current := d;
      OnePageIsEnough(Flat(before, d), tmp, n);
      TextSurvives(m, m, Flat(before, d), e, virt, n, text, tmp);
      NarrowSource(m, Flat(mid, d), virt, n, text, tmp, tmp + 4096, tmp + n);
      StrncpyThrough(memory, ram, current, tmp, virt, n, tmp, text);
      current := kernel;
      res := Set(ram, d, tmp, oldEntry.value);
      RemapsDirectory(mid, ram.frames, d, Flat(mid, d)[tmp / 4096 := oldEntry.value]);
      OtherDirectory(mid, ram.frames, d, Flat(mid, d)[tmp / 4096 := oldEntry.value], kernel);
      MapRestores(before, mid, ram.frames, d, tmp / 4096, e);
    }

    /** From the user string to tmp, and from there to phys. */
    method Deliver(d: nat, tmp: Word, virt: Word, phys: Word, n: nat, ghost text: string)
      requires Valid() && TaskDirectory(d) && Aligned(tmp) && n < 4096 && tmp + 4096 <= memory.Length
      requires UserText(memory[..], Flat(ram.frames, d), virt, n, text, tmp)
      requires phys + n <= memory.Length && (phys + n <= tmp || tmp + 4096 <= phys)
      modifies ram, memory, this`current
      ensures Valid() && TaskDirectory(d) && current == kernel
      ensures Remaps(old(ram.frames), ram.frames, d, Flat(old(ram.frames), d))
      ensures SameBut(Written(old(memory[..]), phys, Copied(text, n)), memory[..], tmp, tmp + 4096)
    {
      hide IsDirectory, Flat, Footprint, Translate, Remaps, Identity, WellFormed, Source, UserText, Copied;
      ghost var m := memory[..];
      TextStays(m, m, Flat(ram.frames, d), virt, n, text, tmp);
      var res := Fetch(d, tmp, virt, n, text);
      CopyIsSource(m, Flat(ram.frames, kernel), tmp, n, text, phys);
      IdentityWindow(Flat(ram.frames, kernel), phys, n);
      if res >= 0 {
        StrncpyThrough(memory, ram, current, phys, tmp, n, phys, text);
      }
    }

    /**
     copy_string_from_task. The page map of the task and the heap are as before; the kernel buffer at phys
     holds the user's string, or its first max characters. Asked for a page or more, it refuses.
     */
    method CopyStringFromTask(d: nat, virt: Word, phys: Word, max: int, ghost text: string) returns (r: Outcome<int>)
      requires Valid() && TaskDirectory(d) && max >= -0x8000_0000
      requires var a := Allocate(heap.entries[..], BlocksFor(max % WORD));
               max < 4096 && a.Block? ==>
                 CanCopy(memory[..], Flat(ram.frames, d), virt, phys, max, text, heap.saddr + 4096 * a.start)
      modifies heap.entries, ram, memory, this`current
      ensures Valid() && TaskDirectory(d) && current == old(current)
      ensures Remaps(old(ram.frames), ram.frames, d, Flat(old(ram.frames), d))
      ensures heap.entries[..] == old(heap.entries[..])
      ensures var a := Allocate(old(heap.entries[..]), BlocksFor(max % WORD));
              && r == (if old(current) != kernel then Halted else if max >= 4096 then Done(-EINVARG)
                       else if a.Stop? then Halted else Done(0))
              && (r != Done(0) ==> memory[..] == old(memory[..]))
              && (r == Done(0) && a.NoMemory? ==> SameBut(old(memory[..]), memory[..], 0, Count(max)))
              && (r == Done(0) && a.Block? ==>
                    var tmp := heap.saddr + 4096 * a.start;
                    SameBut(Written(old(memory[..]), phys, Copied(text, Count(max))), memory[..], tmp, tmp + 4096))
    {
      hide IsDirectory, Flat, Footprint, Translate, Identity, Written, WellFormed, UserText, Copied, BlocksFor,
           Allocate, Take, Release, Source, SameBut, Live, Remaps;
      RemapsNothing(ram.frames, d);
      if current != kernel {
        return Halted;
      }
      if max >= 4096 {
        return Done(-EINVARG);
      }
      ghost var t, m := heap.entries[..], memory[..];
      ghost var a := Allocate(t, BlocksFor(max % WORD));
      var tmp := KZalloc(max);
      if tmp.Halted? || tmp.value == 0 {
        return if tmp.Halted? then Halted else Done(0);
      }
      ghost var w := memory[..];
      TextStays(m, w, Flat(ram.frames, d), virt, Count(max), text, tmp.value);
      Deliver(d, tmp.value, virt, phys, Count(max), text);
      WrittenSameBut(m, w, memory[..], tmp.value, phys, Copied(text, Count(max)));
      r := Done(0);
      FreedAgain(t, a.start, BlocksFor(max % WORD));
      var halted := heap.KFree(tmp.value);
    }
  }

  /** How many bytes a signed length stands for in a counting loop. */
  function Count(max: int): nat {
    if max > 0 then max else 0
  }

  /** The user string can be read, and the kernel buffer is in memory and apart from the temporary block. */
  ghost predicate CanCopy(m: seq<char>, f: FlatMap, virt: Word, phys: Word, max: int, text: string, tmp: Word) {
    && UserText(m, f, virt, Count(max), text, tmp)
    && phys + Count(max) <= |m| && (phys + Count(max) <= tmp || tmp + 4096 <= phys)
  }

  lemma WrittenSameBut(m: seq<char>, w: seq<char>, v: seq<char>, tmp: Word, at: nat, c: seq<char>)
    requires SameBut(m, w, tmp, tmp + 4096) && at + |c| <= |m|
    requires SameBut(Written(w, at, c), v, tmp, tmp + 4096)
    ensures SameBut(Written(m, at, c), v, tmp, tmp + 4096)
  {}
}
