/**
 The load segments of an ELF file (elf_process_phdr_pt_load, elf_process_pheaders, elf_virtual_to_phys;
 src/loader/formats/elf/elfloader.c:192-195 and :232-267): virtual and physical bounds, and the
 translation they are for.
 */
module ElfSegments {
  import opened Kernel

  /** PT_LOAD, PT_DYNAMIC with the result of loading what it names, or anything else. */
  datatype SegmentType = Loadable | Dynamic(res: int) | OtherSegment

  /** struct elf32_phdr, as far as loading looks at it. */
  datatype Phdr = Phdr(kind: SegmentType, offset: nat, vaddr: nat, filesz: nat)

  /** The four bounds of struct elf_file. */
  datatype Bounds = Bounds(vbase: nat, pbase: nat, vend: nat, pend: nat)

  /** A library's addresses are relative to where the file was loaded. */
  function Rebased(h: Phdr, library: bool, memory: nat): Phdr {
    if h.kind == Loadable && library then h.(vaddr := (h.vaddr + memory) % WORD) else h
  }

  /** elf_process_phdr_pt_load on an already rebased header; other headers leave the bounds alone. */
  function Widened(b: Bounds, h: Phdr, memory: nat): Bounds {
    if h.kind != Loadable then b
    else
      var c := if b.vbase >= h.vaddr || b.vbase == 0 then b.(vbase := h.vaddr, pbase := memory + h.offset) else b;
      var end := (h.vaddr + h.filesz) % WORD;
      if c.vend <= end || c.vend == 0 then c.(vend := end, pend := memory + h.offset + h.filesz) else c
  }

  /** The bounds after all headers. */
  function BoundsOf(hs: seq<Phdr>, memory: nat): Bounds {
    if hs == [] then Bounds(0, 0, 0, 0)
    else Widened(BoundsOf(hs[..|hs| - 1], memory), hs[|hs| - 1], memory)
  }

  class ElfFile {
    const memory: nat
    const library: bool
    const phdrs: array<Phdr>
    var bounds: Bounds

    constructor (memory: nat, library: bool, phdrs: array<Phdr>)
      ensures this.memory == memory && this.library == library && this.phdrs == phdrs
      ensures bounds == Bounds(0, 0, 0, 0)
    {
      this.memory, this.library, this.phdrs := memory, library, phdrs;
      bounds := Bounds(0, 0, 0, 0);
    }

    /** elf_process_phdr_pt_load: p_vaddr is changed in the file image itself. */
    method ProcessLoad(i: nat)
      requires i < phdrs.Length && phdrs[i].kind == Loadable
      modifies this, phdrs
      ensures phdrs[..] == old(phdrs[..])[i := Rebased(old(phdrs[i]), library, memory)]
      ensures phdrs[i].vaddr == if library then (old(phdrs[i].vaddr) + memory) % WORD else old(phdrs[i].vaddr)
      ensures bounds == Widened(old(bounds), phdrs[i], memory)
    {
      if library {
        phdrs[i] := phdrs[i].(vaddr := (phdrs[i].vaddr + memory) % WORD);
      }
      var h := phdrs[i];
      if bounds.vbase >= h.vaddr || bounds.vbase == 0 {
        bounds := bounds.(vbase := h.vaddr);
        bounds := bounds.(pbase := memory + h.offset);
      }
      var end := (h.vaddr + h.filesz) % WORD;
      if bounds.vend <= end || bounds.vend == 0 {
        bounds := bounds.(vend := end);
        bounds := bounds.(pend := memory + h.offset + h.filesz);
      }
    }

    /** elf_process_pheader */
    method ProcessPheader(i: nat) returns (res: int)
      requires i < phdrs.Length
      modifies this, phdrs
      ensures res == if phdrs[i].kind.Dynamic? then phdrs[i].kind.res else 0
      ensures phdrs[..] == old(phdrs[..])[i := Rebased(old(phdrs[i]), library, memory)]
      ensures bounds == Widened(old(bounds), phdrs[i], memory)
    {
      res := 0;
      match phdrs[i].kind {
        case Loadable => ProcessLoad(i);
        case Dynamic(r) => res := r;
        case OtherSegment =>
      }
    }

    /**
     elf_process_pheaders: every load header before the first failure is rebased exactly once, and the bounds
     are those of the headers so far.
     */
    method ProcessPheaders() returns (res: int)
      requires bounds == Bounds(0, 0, 0, 0)
      modifies this, phdrs
      ensures var n := FirstFailure(old(phdrs[..]));
              && (res < 0 <==> n < phdrs.Length) && (res < 0 ==> old(phdrs[..])[n].kind == Dynamic(res))
              && (forall i :: 0 <= i < n ==> phdrs[i] == Rebased(old(phdrs[i]), library, memory))
              && (forall i :: 0 <= i < n ==>
                    && phdrs[i].kind == old(phdrs[i].kind) && phdrs[i].offset == old(phdrs[i].offset)
                    && phdrs[i].filesz == old(phdrs[i].filesz)
                    && phdrs[i].vaddr == if library && old(phdrs[i].kind) == Loadable
                                         then (old(phdrs[i].vaddr) + memory) % WORD else old(phdrs[i].vaddr))
              && (forall i :: n <= i < phdrs.Length ==> phdrs[i] == old(phdrs[i]))
              && bounds == BoundsOf(phdrs[..n], memory)
    {
      res := 0;
      ghost var hs := phdrs[..];
      ghost var n := FirstFailure(hs);
      for i := 0 to phdrs.Length
        invariant i <= n && res >= 0
        invariant forall k :: 0 <= k < i ==> phdrs[k] == Rebased(hs[k], library, memory)
        invariant forall k :: i <= k < phdrs.Length ==> phdrs[k] == hs[k]
        invariant bounds == BoundsOf(phdrs[..i], memory)
      {
        ghost var done := phdrs[..i];
        FailsAt(hs, i);
        res := ProcessPheader(i);
        if res < 0 {
          break;
        }
        assert phdrs[..i] == done && phdrs[..i + 1] == done + [phdrs[i]];
        assert (done + [phdrs[i]])[..i] == done;
      }
    }
  }

  predicate Fails(h: Phdr) {
    h.kind.Dynamic? && h.kind.res < 0
  }

  /** The place of the first header that fails, or the number of headers. */
  function FirstFailure(hs: seq<Phdr>): (n: nat)
    ensures n <= |hs| && (n < |hs| ==> Fails(hs[n])) && forall i :: 0 <= i < n ==> !Fails(hs[i])
  {
    if hs == [] then 0 else if Fails(hs[0]) then 0
    else
      var n := FirstFailure(hs[1..]);
      assert forall i :: 0 < i < |hs| ==> hs[i] == hs[1..][i - 1];
      n + 1
  }

  lemma FailsAt(hs: seq<Phdr>, i: nat)
    requires i <= FirstFailure(hs) && i < |hs|
    ensures Fails(hs[i]) <==> i == FirstFailure(hs)
  {}

  // ----- what the bounds are

  /** No address of a load segment, nor its place in memory, runs over 32 bits. */
  ghost predicate NoWrap(hs: seq<Phdr>, memory: nat) {
    forall i :: 0 <= i < |hs| && hs[i].kind == Loadable ==>
      hs[i].vaddr + hs[i].filesz < WORD && memory + hs[i].offset + hs[i].filesz < WORD
  }

  ghost predicate IsLoad(hs: seq<Phdr>, i: int) {
    0 <= i < |hs| && hs[i].kind == Loadable
  }

  ghost predicate HasLoad(hs: seq<Phdr>) {
    exists i :: IsLoad(hs, i)
  }

  ghost predicate IsMinVaddr(hs: seq<Phdr>, v: nat) {
    (exists i :: IsLoad(hs, i) && hs[i].vaddr == v) && forall i :: IsLoad(hs, i) ==> v <= hs[i].vaddr
  }

  ghost predicate IsMaxEnd(hs: seq<Phdr>, e: nat) {
    && (exists i :: IsLoad(hs, i) && hs[i].vaddr + hs[i].filesz == e)
    && forall i :: IsLoad(hs, i) ==> hs[i].vaddr + hs[i].filesz <= e
  }

  ghost predicate NoZero(hs: seq<Phdr>) {
    forall i :: IsLoad(hs, i) ==> hs[i].vaddr > 0
  }

  /** Header w gave the base addresses. */
  ghost predicate GaveBase(hs: seq<Phdr>, memory: nat, b: Bounds, w: int) {
    IsLoad(hs, w) && b.vbase == hs[w].vaddr && b.pbase == memory + hs[w].offset
  }

  /** The last load header has address zero. */
  ghost predicate EndsInZero(hs: seq<Phdr>) {
    exists i :: IsLoad(hs, i) && hs[i].vaddr == 0 && forall j :: i < j ==> !IsLoad(hs, j)
  }

  /** Extending a list of headers by one. */
  lemma LoadsOfLonger(hs: seq<Phdr>, h: Phdr)
    ensures forall i :: IsLoad(hs + [h], i) <==> IsLoad(hs, i) || (i == |hs| && h.kind == Loadable)
  {}

  /** The virtual end is the greatest end of a load segment. */
  lemma {:induction false} EndIsMax(hs: seq<Phdr>, memory: nat)
    requires NoWrap(hs, memory) && HasLoad(hs)
    ensures IsMaxEnd(hs, BoundsOf(hs, memory).vend)
  {
    var n := |hs| - 1;
    var front, h := hs[..n], hs[n];
    assert hs == front + [h];
    LoadsOfLonger(front, h);
    if HasLoad(front) {
      EndIsMax(front, memory);
      var i :| IsLoad(front, i) && front[i].vaddr + front[i].filesz == BoundsOf(front, memory).vend;
      assert IsLoad(hs, i) && hs[i] == front[i];
      assert h.kind == Loadable ==> IsLoad(hs, n);
    } else {
      NoLoads(front, memory);
      assert IsLoad(hs, n);
    }
  }

  /** Header w gave the end addresses. */
  ghost predicate GaveEnd(hs: seq<Phdr>, memory: nat, b: Bounds, w: int) {
    && IsLoad(hs, w) && b.vend == (hs[w].vaddr + hs[w].filesz) % WORD
    && b.pend == memory + hs[w].offset + hs[w].filesz
  }

  /** One load segment gave both end addresses. */
  lemma {:induction false} EndHasWitness(hs: seq<Phdr>, memory: nat)
    requires HasLoad(hs)
    ensures exists w :: GaveEnd(hs, memory, BoundsOf(hs, memory), w)
  {
    var n := |hs| - 1;
    var front, h := hs[..n], hs[n];
    assert hs == front + [h];
    LoadsOfLonger(front, h);
    var b := BoundsOf(hs, memory);
    if HasLoad(front) {
      EndHasWitness(front, memory);
      var w :| GaveEnd(front, memory, BoundsOf(front, memory), w);
      assert GaveEnd(hs, memory, b, w) || GaveEnd(hs, memory, b, n);
    } else {
      NoLoads(front, memory);
      assert IsLoad(hs, n) && GaveEnd(hs, memory, b, n);
    }
  }

  /** One load segment gave both base addresses. */
  lemma {:induction false} BaseHasWitness(hs: seq<Phdr>, memory: nat)
    requires HasLoad(hs)
    ensures exists w :: GaveBase(hs, memory, BoundsOf(hs, memory), w)
  {
    var n := |hs| - 1;
    var front, h := hs[..n], hs[n];
    assert hs == front + [h];
    LoadsOfLonger(front, h);
    var b := BoundsOf(hs, memory);
    if HasLoad(front) {
      BaseHasWitness(front, memory);
      var w :| GaveBase(front, memory, BoundsOf(front, memory), w);
      assert GaveBase(hs, memory, b, w) || GaveBase(hs, memory, b, n);
    } else {
      NoLoads(front, memory);
      assert IsLoad(hs, n) && GaveBase(hs, memory, b, n);
    }
  }

  lemma {:induction false} NoLoads(hs: seq<Phdr>, memory: nat)
    requires !HasLoad(hs)
    ensures BoundsOf(hs, memory) == Bounds(0, 0, 0, 0)
  {
    if hs != [] {
      var n := |hs| - 1;
      assert hs == hs[..n] + [hs[n]];
      LoadsOfLonger(hs[..n], hs[n]);
      assert !IsLoad(hs, n);
      NoLoads(hs[..n], memory);
    }
  }

  lemma {:induction false} BaseFacts(hs: seq<Phdr>, memory: nat)
    requires NoWrap(hs, memory) && HasLoad(hs)
    ensures NoZero(hs) ==> IsMinVaddr(hs, BoundsOf(hs, memory).vbase)
    ensures BoundsOf(hs, memory).vbase == 0 <==> EndsInZero(hs)
  {
    var n := |hs| - 1;
    var front, h := hs[..n], hs[n];
    assert hs == front + [h];
    LoadsOfLonger(front, h);
    assert forall i :: IsLoad(front, i) ==> hs[i] == front[i];
    if HasLoad(front) {
      BaseFacts(front, memory);
      if h.kind != Loadable {
        assert EndsInZero(hs) <==> EndsInZero(front);
      } else {
        assert IsLoad(hs, n);
        assert EndsInZero(hs) <==> h.vaddr == 0;
      }
    } else {
      NoLoads(front, memory);
      assert IsLoad(hs, n);
      assert EndsInZero(hs) <==> h.vaddr == 0;
    }
  }

  /**
   The virtual base is the least load address if and only if no load address is zero or the last one is:
   zero is also the mark of a base not set yet, so a later header replaces it.
   */
  lemma BaseIsMinExactlyWhen(hs: seq<Phdr>, memory: nat)
    requires NoWrap(hs, memory) && HasLoad(hs)
    ensures IsMinVaddr(hs, BoundsOf(hs, memory).vbase) <==> NoZero(hs) || EndsInZero(hs)
  {
    BaseFacts(hs, memory);
    var b := BoundsOf(hs, memory);
    if !NoZero(hs) {
      var i :| IsLoad(hs, i) && hs[i].vaddr == 0;
      if IsMinVaddr(hs, b.vbase) { assert b.vbase == 0; }
      if b.vbase == 0 { assert IsMinVaddr(hs, 0); }
    }
  }

  /** A segment at address 0 in front of one at 0x1000: the base is 0x1000. */
  lemma ZeroIsOverwritten(memory: nat)
    ensures var hs := [Phdr(Loadable, 0, 0, 1), Phdr(Loadable, 0x1000, 0x1000, 1)];
            BoundsOf(hs, memory).vbase == 0x1000 && !IsMinVaddr(hs, 0x1000)
  {
    var hs := [Phdr(Loadable, 0, 0, 1), Phdr(Loadable, 0x1000, 0x1000, 1)];
    assert hs[..1] == [hs[0]] && hs[..1][..0] == [] && BoundsOf([], memory) == Bounds(0, 0, 0, 0);
    assert BoundsOf(hs[..1], memory).vbase == 0;
    assert IsLoad(hs, 0) && hs[0].vaddr == 0;
  }

  // ----- translation

  /** elf_virtual_to_phys, in 32-bit arithmetic. */
  function VirtToPhys(b: Bounds, virt: nat): nat {
    (virt - b.vbase + b.pbase) % WORD
  }

  /** Byte k of segment i is sent to its own byte of the loaded image. */
  ghost predicate ByteTranslates(h: Phdr, memory: nat, b: Bounds, k: nat) {
    VirtToPhys(b, h.vaddr + k) == memory + h.offset + k
  }

  ghost predicate SegmentTranslates(h: Phdr, memory: nat, b: Bounds) {
    forall k: nat :: k < h.filesz ==> ByteTranslates(h, memory, b, k)
  }

  /** The distance between address and file offset, in 32 bits. */
  function Distance(h: Phdr): nat {
    (h.vaddr - h.offset) % WORD
  }

  /**
   The translation is right for every byte of every load segment if and only if all non-empty segments
   share the distance between address and file offset with the segment that gave the base.
   */
  lemma TranslatesExactlyWhenShared(hs: seq<Phdr>, memory: nat, w: int)
    requires NoWrap(hs, memory) && GaveBase(hs, memory, BoundsOf(hs, memory), w)
    ensures (forall i :: IsLoad(hs, i) ==> SegmentTranslates(hs[i], memory, BoundsOf(hs, memory))) <==>
            (forall i :: IsLoad(hs, i) && hs[i].filesz > 0 ==> Distance(hs[i]) == Distance(hs[w]))
  {
    var b := BoundsOf(hs, memory);
    forall i | IsLoad(hs, i)
      ensures SegmentTranslates(hs[i], memory, b) <==> (hs[i].filesz > 0 ==> Distance(hs[i]) == Distance(hs[w]))
    {
      forall k: nat | k < hs[i].filesz
        ensures ByteTranslates(hs[i], memory, b, k) <==> Distance(hs[i]) == Distance(hs[w])
      {
        Shifted(memory + hs[i].offset + k, hs[i].vaddr - hs[i].offset, hs[w].vaddr - hs[w].offset);
      }
      if hs[i].filesz > 0 && SegmentTranslates(hs[i], memory, b) {
        assert ByteTranslates(hs[i], memory, b, 0);
      }
    }
  }

  lemma Shifted(p: nat, x: int, y: int)
    requires p < WORD
    ensures (p + (x - y)) % WORD == p <==> x % WORD == y % WORD
  {
    var d := x - y;
    assert x == WORD * (x / WORD) + x % WORD && y == WORD * (y / WORD) + y % WORD;
    assert p + d == WORD * ((p + d) / WORD) + (p + d) % WORD;
  }

  // ----- libraries

  /** The headers of a library loaded at memory, from those in its file: each load address moves by memory. */
  ghost predicate LoadedAt(file: seq<Phdr>, hs: seq<Phdr>, memory: nat) {
    && |hs| == |file|
    && forall i :: 0 <= i < |hs| ==>
         && hs[i].kind == file[i].kind && hs[i].offset == file[i].offset && hs[i].filesz == file[i].filesz
         && hs[i].vaddr == if file[i].kind == Loadable then (file[i].vaddr + memory) % WORD else file[i].vaddr
  }

  /** Rebasing every header loads the library there. */
  lemma RebasedIsLoadedAt(file: seq<Phdr>, hs: seq<Phdr>, memory: nat)
    requires |hs| == |file| && forall i :: 0 <= i < |hs| ==> hs[i] == Rebased(file[i], true, memory)
    ensures LoadedAt(file, hs, memory)
  {}

  /** The differences between load addresses are those of the file. */
  lemma DifferencesKept(file: seq<Phdr>, hs: seq<Phdr>, memory: nat, i: int, j: int)
    requires LoadedAt(file, hs, memory) && IsLoad(file, i) && IsLoad(file, j)
    ensures (hs[i].vaddr - hs[j].vaddr) % WORD == (file[i].vaddr - file[j].vaddr) % WORD
  {
    ModDifference(file[i].vaddr + memory, file[j].vaddr + memory);
  }

  lemma ModDifference(x: nat, y: nat)
    ensures (x % WORD - y % WORD) % WORD == (x - y) % WORD
  {
    var q := x / WORD - y / WORD;
    assert x - y == WORD * q + (x % WORD - y % WORD);
    ModAdds(x % WORD - y % WORD, q);
  }

  lemma ModAdds(x: int, q: int)
    ensures (WORD * q + x) % WORD == x % WORD
  {
    assert x == WORD * (x / WORD) + x % WORD;
    assert WORD * q + x == WORD * (q + x / WORD) + x % WORD;
  }

  /**
   A file-relative address v of a library is translated to its own byte of the image, for every byte of every load
   segment, if and only if all non-empty segments of the file have the distance between address and file offset of
   the one that gave the base.
   */
  lemma LibraryTranslatesExactly(file: seq<Phdr>, hs: seq<Phdr>, memory: nat, w: int)
    requires LoadedAt(file, hs, memory) && NoWrap(hs, memory) && GaveBase(hs, memory, BoundsOf(hs, memory), w)
    ensures (forall i :: IsLoad(file, i) ==> LibrarySegment(file[i], memory, BoundsOf(hs, memory))) <==>
            (forall i :: IsLoad(file, i) && file[i].filesz > 0 ==> Distance(file[i]) == Distance(file[w]))
  {
    var b := BoundsOf(hs, memory);
    hide BoundsOf, NoWrap, Distance, SegmentTranslates, LibrarySegment;
    assert IsLoad(file, w);
    forall i | IsLoad(file, i)
      ensures IsLoad(hs, i)
      ensures LibrarySegment(file[i], memory, b) <==> SegmentTranslates(hs[i], memory, b)
      ensures Distance(file[i]) == Distance(file[w]) <==> Distance(hs[i]) == Distance(hs[w])
    {
      SegmentOfFile(file[i], hs[i], memory, b);
      DistancesMove(file[i], hs[i], file[w], hs[w], memory);
    }
    forall i | IsLoad(hs, i)
      ensures IsLoad(file, i)
    {}
    TranslatesExactlyWhenShared(hs, memory, w);
  }

  /** Every byte of the segment, by its address in the file, is sent to its own place. */
  ghost predicate LibrarySegment(h: Phdr, memory: nat, b: Bounds) {
    forall k: nat :: k < h.filesz ==> LibraryByte(h, memory, b, k)
  }

  ghost predicate LibraryByte(h: Phdr, memory: nat, b: Bounds, k: nat) {
    (h.vaddr + k + memory - b.vbase + b.pbase) % WORD == memory + h.offset + k
  }

  lemma SegmentOfFile(h: Phdr, g: Phdr, memory: nat, b: Bounds)
    requires g.offset == h.offset && g.filesz == h.filesz && g.vaddr == (h.vaddr + memory) % WORD
    ensures LibrarySegment(h, memory, b) <==> SegmentTranslates(g, memory, b)
  {
    hide VirtToPhys;
    forall k: nat
      ensures LibraryByte(h, memory, b, k) <==> ByteTranslates(g, memory, b, k)
    {
      MovedByte(h.vaddr + memory, k - b.vbase + b.pbase);
      VirtToPhysIs(b, g.vaddr + k);
    }
  }

  lemma VirtToPhysIs(b: Bounds, virt: nat)
    ensures VirtToPhys(b, virt) == (virt - b.vbase + b.pbase) % WORD
  {}

  lemma MovedByte(x: nat, y: int)
    ensures (x % WORD + y) % WORD == (x + y) % WORD
  {
    assert x + y == WORD * (x / WORD) + (x % WORD + y);
    ModAdds(x % WORD + y, x / WORD);
  }

  lemma DistancesMove(h: Phdr, g: Phdr, h0: Phdr, g0: Phdr, memory: nat)
    requires g.offset == h.offset && g.vaddr == (h.vaddr + memory) % WORD
    requires g0.offset == h0.offset && g0.vaddr == (h0.vaddr + memory) % WORD
    ensures Distance(h) == Distance(h0) <==> Distance(g) == Distance(g0)
  {
    MovedByte(h.vaddr + memory, 0 - h.offset);
    MovedByte(h0.vaddr + memory, 0 - h0.offset);
    SameShift(h.vaddr - h.offset, h0.vaddr - h0.offset, memory);
  }

  lemma SameShift(x: int, y: int, d: int)
    ensures x % WORD == y % WORD <==> (x + d) % WORD == (y + d) % WORD
  {
    assert x == WORD * (x / WORD) + x % WORD && y == WORD * (y / WORD) + y % WORD;
    assert x + d == WORD * ((x + d) / WORD) + (x + d) % WORD;
    assert y + d == WORD * ((y + d) / WORD) + (y + d) % WORD;
    var a := x / WORD - y / WORD;
    var c := (x + d) / WORD - (y + d) / WORD;
    assert x - y == WORD * a + (x % WORD - y % WORD) == WORD * c + ((x + d) % WORD - (y + d) % WORD);
  }
}
