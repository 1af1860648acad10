/**
 Resolving relocations (src/loader/formats/elf/elfloader.c:414-576): which library a symbol is taken from,
 and what is written into the loaded image. Headers, names and tags are read from where they were
 parsed, so that a relocation slot never lies inside the metadata that is still to be read.
 */
module ElfRelocations {
  import opened Kernel
  import opened Bits
  import opened Library
  import opened ElfLoad
  import opened ElfSegments

  type Byte = b: nat | b < 256

  /** A registered library: its name and its symbols in the order of insertion. */
  datatype View = View(name: string, symbols: seq<Symbol>)

  // ----- which symbol

  /** library_get: the first registered library of that name. */
  function FindLibrary(libs: seq<View>, name: string): (r: Option<View>)
    ensures r.None? <==> forall i :: 0 <= i < |libs| ==> libs[i].name != name
    ensures r.Some? ==> exists i :: 0 <= i < |libs| && libs[i] == r.value && r.value.name == name
                                    && forall j :: 0 <= j < i ==> libs[j].name != name
  {
    if libs == [] then None
    else if libs[0].name == name then Some(libs[0])
    else
      var r := FindLibrary(libs[1..], name);
      assert forall i :: 0 < i < |libs| ==> libs[i] == libs[1..][i - 1];
      assert r.Some? ==> forall i :: 0 <= i < |libs[1..]| ==> libs[1..][i] == libs[i + 1];
      r
  }

  /** elf_get_loaded_symbol_address: 0 if a needed library is missing before the symbol is found, or it is nowhere. */
  function Lookup(libs: seq<View>, needed: seq<string>, symbol: string): Word {
    if needed == [] then 0
    else
      match FindLibrary(libs, BaseName(needed[0]))
      case None => 0
      case Some(library) =>
        match FirstNamed(library.symbols, symbol)
        case Some(s) => s.virt
        case None => Lookup(libs, needed[1..], symbol)
  }

  lemma LookupUnfold(libs: seq<View>, needed: seq<string>, symbol: string, i: nat)
    requires i < |needed|
    ensures Lookup(libs, needed[i..], symbol) ==
            match FindLibrary(libs, BaseName(needed[i]))
            case None => 0
            case Some(library) =>
              match FirstNamed(library.symbols, symbol)
              case Some(s) => s.virt
              case None => Lookup(libs, needed[i + 1..], symbol)
  {
    hide BaseName, FindLibrary, FirstNamed;
    assert needed[i..][0] == needed[i] && needed[i..][1..] == needed[i + 1..];
  }

  ghost predicate Defines(libs: seq<View>, path: string, symbol: string) {
    FindLibrary(libs, BaseName(path)).Some? && FirstNamed(FindLibrary(libs, BaseName(path)).value.symbols, symbol).Some?
  }

  /**
   With the needed libraries registered, a symbol is taken from the first needed library in tag order
   that defines it; there it is the one inserted first.
   */
  lemma {:induction false} LookupTakesFirst(libs: seq<View>, needed: seq<string>, symbol: string, k: nat)
    requires k < |needed| && Defines(libs, needed[k], symbol)
    requires forall j :: 0 <= j < k ==>
              FindLibrary(libs, BaseName(needed[j])).Some? && !Defines(libs, needed[j], symbol)
    ensures Lookup(libs, needed, symbol) ==
            FirstNamed(FindLibrary(libs, BaseName(needed[k])).value.symbols, symbol).value.virt
    decreases k
  {
    hide BaseName, FindLibrary, FirstNamed;
    if k > 0 {
      assert forall j :: 0 <= j < k ==> needed[1..][j] == needed[j + 1];
      LookupTakesFirst(libs, needed[1..], symbol, k - 1);
    }
  }

  /** A symbol no needed library defines resolves to 0, without an error. */
  lemma {:induction false} LookupNowhere(libs: seq<View>, needed: seq<string>, symbol: string)
    requires forall k :: 0 <= k < |needed| ==> !Defines(libs, needed[k], symbol)
    ensures Lookup(libs, needed, symbol) == 0
  {
    hide BaseName, FindLibrary, FirstNamed;
    if needed != [] {
      assert forall k :: 0 <= k < |needed| - 1 ==> needed[1..][k] == needed[k + 1];
      LookupNowhere(libs, needed[1..], symbol);
    }
  }

  /** A needed library that is not registered ends the search with 0, whatever comes behind it. */
  lemma {:induction false} LookupEndsAtMissing(libs: seq<View>, needed: seq<string>, symbol: string, k: nat)
    requires k < |needed| && FindLibrary(libs, BaseName(needed[k])).None?
    requires forall j :: 0 <= j < k ==> !Defines(libs, needed[j], symbol)
    ensures Lookup(libs, needed, symbol) == 0
    decreases k
  {
    hide BaseName, FindLibrary, FirstNamed;
    if k > 0 && FindLibrary(libs, BaseName(needed[0])).Some? {
      assert forall j :: 0 <= j < k ==> needed[1..][j] == needed[j + 1];
      LookupEndsAtMissing(libs, needed[1..], symbol, k - 1);
    }
  }

  // ----- after loading

  /** The registry's entries, by the names that loading has registered. */
  ghost predicate NamedAs(libs: seq<View>, registry: seq<string>) {
    |libs| == |registry| && forall i :: 0 <= i < |libs| ==> libs[i].name == registry[i]
  }

  /**
   When the executable and the closure t fit the free descriptors, every needed library is found in the
   registry by the time relocations are resolved.
   */
  lemma NeededAreFound(files: Files, free: nat, path: string, registry: seq<string>, t: set<string>, libs: seq<View>)
    requires ReadyToLoad(files, path, registry, t) && Closure(files, path, registry, t)
    requires 1 + |t - Elements(registry)| <= free
    requires NamedAs(libs, Load(files, free, path, registry).registry)
    ensures forall n :: n in files[path].needed ==> FindLibrary(libs, BaseName(n)).Some?
  {
    hide BaseName, Load, ReadyToLoad, Closure, FindLibrary;
    LoadRegistersClosure(files, free, path, registry, t);
    InFiles(files, path, registry, t);
    OldOnesIn(files, path, registry, t);
    var after := Load(files, free, path, registry).registry;
    forall n | n in files[path].needed
      ensures FindLibrary(libs, BaseName(n)).Some?
    {
      assert BaseName(n) in Names(files[path].needed);
      var i :| 0 <= i < |after| && after[i] == BaseName(n);
      assert libs[i].name == BaseName(n);
    }
  }

  /**
   After such a load a symbol comes from the first needed library in tag order that defines it, or is 0 when
   none does.
   */
  lemma LookupAfterLoad(files: Files, free: nat, path: string, registry: seq<string>, t: set<string>, libs: seq<View>,
                        symbol: string)
    requires ReadyToLoad(files, path, registry, t) && Closure(files, path, registry, t)
    requires 1 + |t - Elements(registry)| <= free
    requires NamedAs(libs, Load(files, free, path, registry).registry)
    ensures var needed := files[path].needed;
            && (forall k :: IsFirstDefining(libs, needed, symbol, k) ==>
                  Lookup(libs, needed, symbol) ==
                  FirstNamed(FindLibrary(libs, BaseName(needed[k])).value.symbols, symbol).value.virt)
            && ((forall k :: 0 <= k < |needed| ==> !Defines(libs, needed[k], symbol)) ==>
                  Lookup(libs, needed, symbol) == 0)
  {
    hide BaseName, Load, FindLibrary, FirstNamed, Lookup;
    NeededAreFound(files, free, path, registry, t, libs);
    var needed := files[path].needed;
    forall k | IsFirstDefining(libs, needed, symbol, k)
      ensures Lookup(libs, needed, symbol) ==
              FirstNamed(FindLibrary(libs, BaseName(needed[k])).value.symbols, symbol).value.virt
    {
      LookupTakesFirst(libs, needed, symbol, k);
    }
    if forall k :: 0 <= k < |needed| ==> !Defines(libs, needed[k], symbol) {
      LookupNowhere(libs, needed, symbol);
    }
  }

  /** The library named at place k defines the symbol, and none before it does. */
  ghost predicate IsFirstDefining(libs: seq<View>, needed: seq<string>, symbol: string, k: int) {
    && 0 <= k < |needed| && Defines(libs, needed[k], symbol)
    && forall j :: 0 <= j < k ==> !Defines(libs, needed[j], symbol)
  }

  // ----- what is written

  datatype RelKind = JumpSlot | Relative | Unsupported

  /** struct elf32_rel: r_offset, and the type and symbol index packed in r_info. */
  datatype Rel = Rel(offset: Word, kind: RelKind, sym: nat)

  /** What relocating needs to know of a file and of the libraries. */
  datatype Link = Link(bounds: Bounds, memory: nat, needed: seq<string>, names: seq<string>, libs: seq<View>) {
    /** elf_get_relocation_address: a jump slot is absolute, a relative one is counted from the base. */
    function Address(rel: Rel): Word {
      if rel.kind == Relative then (bounds.vbase + rel.offset) % WORD else rel.offset
    }

    /** Where the slot lies in the loaded image. */
    function Slot(rel: Rel): int {
      VirtToPhys(bounds, Address(rel)) - memory
    }

    /** The error an entry is refused with, 0 if it is not: its type is unknown, or its slot translates to null. */
    function Refused(rel: Rel): (res: int) {
      if rel.kind == Unsupported then -EUNIMP else if VirtToPhys(bounds, Address(rel)) == 0 then -EIO else 0
    }

    /** The symbol index lies in the symbol table, and the slot, if it is written, in the image of size bytes. */
    predicate Fits(rel: Rel, size: nat) {
      (rel.kind == JumpSlot ==> rel.sym < |names|) && (Refused(rel) == 0 ==> 0 <= Slot(rel) <= size - 4)
    }

    /** The entry is resolved by writing into the image. */
    predicate Writes(rel: Rel, size: nat) {
      Fits(rel, size) && Refused(rel) == 0
    }

    function Value(rel: Rel): Word
      requires rel.kind == JumpSlot ==> rel.sym < |names|
    {
      if rel.kind == JumpSlot then Lookup(libs, needed, names[rel.sym]) else Address(rel)
    }
  }

  function ByteOf(val: Word, k: nat): Byte
    requires k < 4
  {
    if k == 0 then val % 256 else if k == 1 then val / 0x100 % 256
    else if k == 2 then val / 0x1_0000 % 256 else val / 0x100_0000
  }

  /** The image with a little-endian word written at i. */
  ghost function Poked(mem: seq<Byte>, i: int, val: Word): (r: seq<Byte>)
    requires 0 <= i <= |mem| - 4
    ensures |r| == |mem|
    ensures forall k :: 0 <= k < |mem| ==> r[k] == if i <= k < i + 4 then ByteOf(val, k - i) else mem[k]
  {
    mem[..i] + [ByteOf(val, 0), ByteOf(val, 1), ByteOf(val, 2), ByteOf(val, 3)] + mem[i + 4..]
  }

  function LittleEndian(a: int, b: int, c: int, d: int): int {
    a + 0x100 * b + 0x1_0000 * c + 0x100_0000 * d
  }

  ghost function WordAt(mem: seq<Byte>, i: int): int
    requires 0 <= i <= |mem| - 4
  {
    LittleEndian(mem[i], mem[i + 1], mem[i + 2], mem[i + 3])
  }

  /** The result and the image after the entries in order, up to the first that is refused. */
  ghost function Applied(link: Link, rels: seq<Rel>, mem: seq<Byte>): (r: (int, seq<Byte>))
    requires forall rel :: rel in rels ==> link.Fits(rel, |mem|)
    ensures |r.1| == |mem|
    decreases |rels|
  {
    if rels == [] then (0, mem)
    else if link.Refused(rels[0]) < 0 then (link.Refused(rels[0]), mem)
    else
      assert rels[0] in rels && link.Fits(rels[0], |mem|);
      Applied(link, rels[1..], Poked(mem, link.Slot(rels[0]), link.Value(rels[0])))
  }

  ghost function Flatten(tables: seq<seq<Rel>>): seq<Rel> {
    if tables == [] then [] else tables[0] + Flatten(tables[1..])
  }

  lemma {:induction false} AppliedTwice(link: Link, a: seq<Rel>, b: seq<Rel>, mem: seq<Byte>)
    requires forall rel :: rel in a + b ==> link.Fits(rel, |mem|)
    ensures forall rel :: rel in a ==> rel in a + b
    ensures forall rel :: rel in b ==> rel in a + b
    ensures var r := Applied(link, a, mem);
            Applied(link, a + b, mem) == if r.0 < 0 then r else Applied(link, b, r.1)
    decreases |a|
  {
    hide Link.Slot, Link.Value, Poked;
    if a == [] {
      assert a + b == b;
    } else {
      assert (a + b)[0] == a[0] && (a + b)[1..] == a[1..] + b;
      if link.Refused(a[0]) == 0 {
        assert a[0] in a + b;
        AppliedTwice(link, a[1..], b, Poked(mem, link.Slot(a[0]), link.Value(a[0])));
      }
    }
  }

  ghost predicate InSlot(link: Link, rel: Rel, k: int) {
    link.Slot(rel) <= k < link.Slot(rel) + 4
  }

  /** Bytes outside all slots keep their value. */
  lemma {:induction false} AppliedElsewhere(link: Link, rels: seq<Rel>, mem: seq<Byte>, k: nat)
    requires forall rel :: rel in rels ==> link.Fits(rel, |mem|)
    requires k < |mem| && forall rel :: rel in rels ==> !InSlot(link, rel, k)
    ensures Applied(link, rels, mem).1[k] == mem[k]
    decreases |rels|
  {
    hide Link.Value, Link.Slot;
    if rels != [] && link.Refused(rels[0]) == 0 {
      assert rels[0] in rels;
      AppliedElsewhere(link, rels[1..], Poked(mem, link.Slot(rels[0]), link.Value(rels[0])), k);
    }
  }

  lemma WordOfBytes(val: Word)
    ensures LittleEndian(ByteOf(val, 0), ByteOf(val, 1), ByteOf(val, 2), ByteOf(val, 3)) == val
  {
    assert val / 0x100 / 0x100 == val / 0x1_0000 && val / 0x1_0000 / 0x100 == val / 0x100_0000;
  }

  /** No two slots overlap. */
  ghost predicate Apart(link: Link, rels: seq<Rel>) {
    forall i, j :: 0 <= i < j < |rels| ==>
      link.Slot(rels[i]) + 4 <= link.Slot(rels[j]) ||
      link.Slot(rels[j]) + 4 <= link.Slot(rels[i])
  }

  lemma FirstSlotApart(link: Link, rels: seq<Rel>, k: nat)
    requires Apart(link, rels) && rels != [] && InSlot(link, rels[0], k)
    ensures forall rel :: rel in rels[1..] ==> !InSlot(link, rel, k)
  {
    forall rel | rel in rels[1..]
      ensures !InSlot(link, rel, k)
    {
      var j :| 0 <= j < |rels[1..]| && rels[1..][j] == rel;
      assert rels[j + 1] == rel;
    }
  }

  /** The slot of the entry holds the entry's word. */
  ghost predicate Filled(link: Link, rel: Rel, mem: seq<Byte>) {
    link.Writes(rel, |mem|) && WordAt(mem, link.Slot(rel)) == link.Value(rel)
  }

  lemma FilledByWriting(link: Link, rel: Rel, mem: seq<Byte>, after: seq<Byte>)
    requires link.Writes(rel, |mem|) && |after| == |mem|
    requires var s := link.Slot(rel); forall k :: s <= k < s + 4 ==> after[k] == Poked(mem, s, link.Value(rel))[k]
    ensures Filled(link, rel, after)
  {
    hide Link.Value, Link.Slot, ByteOf, Link.Refused;
    WordOfBytes(link.Value(rel));
  }

  /**
   Entries that are all written, with slots apart from each other: resolving succeeds, every slot holds the
   word of its own entry, and all other bytes of the image are unchanged.
   */
  lemma {:induction false} SlotsFilled(link: Link, rels: seq<Rel>, mem: seq<Byte>)
    requires forall rel :: rel in rels ==> link.Fits(rel, |mem|) && link.Refused(rel) == 0
    requires Apart(link, rels)
    ensures Applied(link, rels, mem).0 == 0
    ensures forall rel :: rel in rels ==> Filled(link, rel, Applied(link, rels, mem).1)
    ensures forall k :: 0 <= k < |mem| && (forall rel :: rel in rels ==> !InSlot(link, rel, k)) ==>
              Applied(link, rels, mem).1[k] == mem[k]
    decreases |rels|
  {
    hide Link.Value, Link.Slot, ByteOf, Link.Refused, Filled;
    forall k: nat | k < |mem| && (forall rel :: rel in rels ==> !InSlot(link, rel, k))
      ensures Applied(link, rels, mem).1[k] == mem[k]
    {
      AppliedElsewhere(link, rels, mem, k);
    }
    if rels != [] {
      var first, rest := rels[0], rels[1..];
      assert first in rels && link.Writes(first, |mem|);
      var s := link.Slot(first);
      var mid := Poked(mem, s, link.Value(first));
      SlotsFilled(link, rest, mid);
      forall k: nat | s <= k < s + 4
        ensures Applied(link, rest, mid).1[k] == mid[k]
      {
        FirstSlotApart(link, rels, k);
        AppliedElsewhere(link, rest, mid, k);
      }
      FilledByWriting(link, first, mem, Applied(link, rest, mid).1);
    }
  }

  /** The four bytes from i on are v, lowest byte first. */
  ghost predicate HoldsWord(mem: seq<Byte>, i: int, v: Word) {
    && 0 <= i <= |mem| - 4
    && mem[i] == v % 0x100 && mem[i + 1] == v / 0x100 % 0x100
    && mem[i + 2] == v / 0x1_0000 % 0x100 && mem[i + 3] == v / 0x100_0000
  }

  lemma FilledHolds(link: Link, rel: Rel, mem: seq<Byte>)
    requires Filled(link, rel, mem)
    ensures HoldsWord(mem, link.Slot(rel), link.Value(rel))
  {
    hide Link.Value, Link.Slot, Link.Refused;
    var i, v := link.Slot(rel), link.Value(rel);
    DigitsAre(mem[i], mem[i + 1], mem[i + 2], mem[i + 3], v);
  }

  lemma DigitsAre(a: Byte, b: Byte, c: Byte, d: Byte, v: Word)
    requires a + 0x100 * b + 0x1_0000 * c + 0x100_0000 * d == v
    ensures a == v % 0x100 && b == v / 0x100 % 0x100 && c == v / 0x1_0000 % 0x100 && d == v / 0x100_0000
  {
    var x := c + 0x100 * d;
    var y := b + 0x100 * x;
    LowDigit(a, y);
    LowDigit(b, x);
    LowDigit(c, d);
    assert v / 0x1_0000 == v / 0x100 / 0x100 && v / 0x100_0000 == v / 0x1_0000 / 0x100;
  }

  lemma LowDigit(a: Byte, rest: nat)
    ensures (a + 0x100 * rest) % 0x100 == a && (a + 0x100 * rest) / 0x100 == rest
  {}

  /** Every library that is needed is found in the registry. */
  ghost predicate AllFound(libs: seq<View>, needed: seq<string>) {
    forall n :: n in needed ==> FindLibrary(libs, BaseName(n)).Some?
  }

  /** Place i holds the address of the named symbol: by the first needed library that has one, or 0 if none has. */
  ghost predicate HoldsSymbol(mem: seq<Byte>, i: int, libs: seq<View>, needed: seq<string>, symbol: string) {
    && (forall k :: IsFirstDefining(libs, needed, symbol, k) ==>
          HoldsWord(mem, i, FirstNamed(FindLibrary(libs, BaseName(needed[k])).value.symbols, symbol).value.virt))
    && ((forall k :: 0 <= k < |needed| ==> !Defines(libs, needed[k], symbol)) ==> HoldsWord(mem, i, 0))
  }

  /**
   After resolving, the place a jump slot entry names in the image, by the bounds of the file, holds the address of
   the symbol that very entry names.
   */
  lemma JumpSlotsFilled(link: Link, rels: seq<Rel>, mem: seq<Byte>, rel: Rel)
    requires forall r :: r in rels ==> link.Fits(r, |mem|) && link.Refused(r) == 0
    requires Apart(link, rels) && rel in rels && rel.kind == JumpSlot && AllFound(link.libs, link.needed)
    ensures rel.sym < |link.names|
    ensures HoldsSymbol(Applied(link, rels, mem).1,
                        (rel.offset - link.bounds.vbase + link.bounds.pbase) % WORD - link.memory,
                        link.libs, link.needed, link.names[rel.sym])
  {
    hide Applied, HoldsWord, HoldsSymbol, Filled, Apart, AllFound, Link.Slot, Link.Value, Link.Refused, Lookup;
    SlotsFilled(link, rels, mem);
    var after := Applied(link, rels, mem).1;
    FilledHolds(link, rel, after);
    JumpPlace(link, rel);
    SymbolHeld(after, link.Slot(rel), link.libs, link.needed, link.names[rel.sym]);
  }

  lemma JumpPlace(link: Link, rel: Rel)
    requires rel.kind == JumpSlot && rel.sym < |link.names|
    ensures link.Slot(rel) == (rel.offset - link.bounds.vbase + link.bounds.pbase) % WORD - link.memory
    ensures link.Value(rel) == Lookup(link.libs, link.needed, link.names[rel.sym])
  {
    hide Lookup;
  }

  lemma SymbolHeld(mem: seq<Byte>, i: int, libs: seq<View>, needed: seq<string>, symbol: string)
    requires AllFound(libs, needed) && HoldsWord(mem, i, Lookup(libs, needed, symbol))
    ensures HoldsSymbol(mem, i, libs, needed, symbol)
  {
    hide Lookup, FindLibrary, FirstNamed, BaseName, HoldsWord;
    forall k | IsFirstDefining(libs, needed, symbol, k)
      ensures Lookup(libs, needed, symbol) ==
              FirstNamed(FindLibrary(libs, BaseName(needed[k])).value.symbols, symbol).value.virt
    {
      LookupTakesFirst(libs, needed, symbol, k);
    }
    if forall k :: 0 <= k < |needed| ==> !Defines(libs, needed[k], symbol) {
      LookupNowhere(libs, needed, symbol);
    }
  }

  /** And the place a relative entry names holds its own address. */
  lemma RelativesFilled(link: Link, rels: seq<Rel>, mem: seq<Byte>, rel: Rel)
    requires forall r :: r in rels ==> link.Fits(r, |mem|) && link.Refused(r) == 0
    requires Apart(link, rels) && rel in rels && rel.kind == Relative
    ensures HoldsWord(Applied(link, rels, mem).1, (link.bounds.pbase + rel.offset) % WORD - link.memory,
                      (link.bounds.vbase + rel.offset) % WORD)
  {
    hide Applied, HoldsWord, Filled, Apart, Link.Slot, Link.Value, Link.Refused, Link.Fits;
    SlotsFilled(link, rels, mem);
    FilledHolds(link, rel, Applied(link, rels, mem).1);
    RelativePlace(link, rel);
  }

  lemma RelativePlace(link: Link, rel: Rel)
    requires rel.kind == Relative
    ensures link.Slot(rel) == (link.bounds.pbase + rel.offset) % WORD - link.memory
    ensures link.Value(rel) == (link.bounds.vbase + rel.offset) % WORD
  {
    MovedByte(link.bounds.vbase + rel.offset, link.bounds.pbase - link.bounds.vbase);
  }

  /** After loading within the free descriptors the needed libraries need not be asked for: they are found. */
  lemma JumpSlotsAfterLoad(files: Files, free: nat, path: string, registry: seq<string>, t: set<string>,
                           link: Link, rels: seq<Rel>, mem: seq<Byte>, rel: Rel)
    requires ReadyToLoad(files, path, registry, t) && Closure(files, path, registry, t)
    requires 1 + |t - Elements(registry)| <= free && path in files && link.needed == files[path].needed
    requires NamedAs(link.libs, Load(files, free, path, registry).registry)
    requires forall r :: r in rels ==> link.Fits(r, |mem|) && link.Refused(r) == 0
    requires Apart(link, rels) && rel in rels && rel.kind == JumpSlot
    ensures rel.sym < |link.names|
    ensures HoldsSymbol(Applied(link, rels, mem).1,
                        (rel.offset - link.bounds.vbase + link.bounds.pbase) % WORD - link.memory,
                        link.libs, files[path].needed, link.names[rel.sym])
  {
    hide ReadyToLoad, Closure, Load, Applied, HoldsSymbol, Apart, FindLibrary, BaseName, Link.Fits, Link.Refused;
    NeededAreFound(files, free, path, registry, t, link.libs);
    JumpSlotsFilled(link, rels, mem, rel);
  }

  /** An entry is refused for its type or for a place that translates to null, and then it ends the resolving. */
  lemma {:induction false} RefusedEnds(link: Link, rels: seq<Rel>, mem: seq<Byte>, i: nat)
    requires forall r :: r in rels ==> link.Fits(r, |mem|)
    requires i < |rels| && forall j :: 0 <= j < i ==> link.Refused(rels[j]) == 0
    requires rels[i].kind == Unsupported || (rels[i].kind == JumpSlot && VirtToPhys(link.bounds, rels[i].offset) == 0)
    ensures forall r :: r in rels[..i] ==> r in rels
    ensures Applied(link, rels, mem) ==
            (if rels[i].kind == Unsupported then -EUNIMP else -EIO, Applied(link, rels[..i], mem).1)
    decreases i
  {
    hide Link.Value, Link.Slot, Poked;
    if i > 0 {
      assert rels[0] in rels && rels[..i][0] == rels[0] && rels[..i][1..] == rels[1..][..i - 1];
      RefusedEnds(link, rels[1..], Poked(mem, link.Slot(rels[0]), link.Value(rels[0])), i - 1);
    }
  }

  /**
   A relative entry stores base plus addend, the addend being the word found in the slot, if and only if that
   word is r_offset itself: the source never reads it.
   */
  lemma RelativeIsBasePlusAddend(link: Link, rel: Rel, mem: seq<Byte>)
    requires rel.kind == Relative && link.Writes(rel, |mem|)
    ensures var addend := WordAt(mem, link.Slot(rel));
            link.Value(rel) == (link.bounds.vbase + addend) % WORD <==> addend == rel.offset
  {
    hide Link.Slot, Link.Value, Link.Refused, WordAt;
    var addend := WordAt(mem, link.Slot(rel));
    WordIsSmall(mem, link.Slot(rel));
    RelativePlace(link, rel);
    SameSum(link.bounds.vbase, rel.offset, addend);
  }

  lemma WordIsSmall(mem: seq<Byte>, i: int)
    requires 0 <= i <= |mem| - 4
    ensures 0 <= WordAt(mem, i) < WORD
  {}

  lemma SameSum(base: nat, a: Word, b: Word)
    ensures (base + a) % WORD == (base + b) % WORD <==> a == b
  {
    var x, y := (base + a) / WORD, (base + b) / WORD;
    assert base + a == WORD * x + (base + a) % WORD && base + b == WORD * y + (base + b) % WORD;
  }

  /** A library at 0x1000 whose slot holds the addend 0 should get 0x1000 there, and gets 0x1010. */
  lemma RelativeIgnoresAddend(mem: seq<Byte>)
    requires |mem| == 0x20 && WordAt(mem, 0x10) == 0
    ensures var link := Link(Bounds(0x1000, 0x1000, 0x2000, 0x2000), 0x1000, [], [], []);
            var rel := Rel(0x10, Relative, 0);
            && link.Writes(rel, |mem|) && link.Slot(rel) == 0x10 && (forall r :: r in [rel] ==> link.Fits(r, |mem|))
            && Applied(link, [rel], mem).0 == 0 && WordAt(Applied(link, [rel], mem).1, 0x10) == 0x1010
  {
    var link := Link(Bounds(0x1000, 0x1000, 0x2000, 0x2000), 0x1000, [], [], []);
    var rel := Rel(0x10, Relative, 0);
    assert link.Slot(rel) == 0x10 && link.Value(rel) == 0x1010 && link.Writes(rel, |mem|);
    hide Applied, Link.Slot, Link.Value, Link.Refused, WordAt, Link.Address;
    SlotsFilled(link, [rel], mem);
    assert rel in [rel];
    assert Filled(link, rel, Applied(link, [rel], mem).1);
  }

  // ----- the code

  /** What the registry looks like to a search. */
  ghost function ViewOf(e: Entry): View
    reads e.symbols, e.symbols.ptr
  {
    View(e.name, e.symbols.Contents())
  }

  /** The file being relocated: its image and the registered libraries. */
  class Linker {
    const mem: array<Byte>
    const registry: seq<Entry>
    const bounds: Bounds
    const memory: nat
    const needed: seq<string>
    const names: seq<string>

    constructor (mem: array<Byte>, registry: seq<Entry>, bounds: Bounds, memory: nat, needed: seq<string>,
                 names: seq<string>)
      ensures this.mem == mem && this.registry == registry && this.bounds == bounds && this.memory == memory
      ensures this.needed == needed && this.names == names
    {
      this.mem, this.registry, this.bounds, this.memory := mem, registry, bounds, memory;
      this.needed, this.names := needed, names;
    }

    ghost function Views(): (v: seq<View>)
      reads set e | e in registry :: e.symbols, set e | e in registry :: e.symbols.ptr
      ensures |v| == |registry| && forall i :: 0 <= i < |v| ==> v[i] == ViewOf(registry[i])
    {
      seq(|registry|, i requires 0 <= i < |registry|
                        reads set e | e in registry :: e.symbols, set e | e in registry :: e.symbols.ptr
                        => ViewOf(registry[i]))
    }

    ghost function Info(): Link
      reads set e | e in registry :: e.symbols, set e | e in registry :: e.symbols.ptr
    {
      Link(bounds, memory, needed, names, Views())
    }

    ghost predicate Valid()
      reads set e | e in registry :: e.symbols
    {
      forall e :: e in registry ==> e.symbols.Valid()
    }

    /** library_get: the index of the first library of that name, or the number of libraries. */
    method LibraryGet(name: string) returns (i: nat)
      ensures i <= |registry|
      ensures FindLibrary(Views(), name) == if i < |registry| then Some(ViewOf(registry[i])) else None
    {
      i := 0;
      while i < |registry|
        invariant 0 <= i <= |registry|
        invariant forall j :: 0 <= j < i ==> Views()[j].name != name
      {
        if registry[i].name == name {
          assert Views()[i].name == name;
          return;
        }
        i := i + 1;
      }
    }

    /** elf_get_loaded_symbol_address */
    method GetLoadedSymbolAddress(symbol: string) returns (address: Word)
      requires Valid()
      ensures address == Lookup(Views(), needed, symbol)
    {
      hide BaseName, FindLibrary, FirstNamed, Lookup;
      LookupNowhere(Views(), [], symbol);
      assert needed[0..] == needed && needed[|needed|..] == [];
      for i := 0 to |needed|
        invariant Lookup(Views(), needed, symbol) == Lookup(Views(), needed[i..], symbol)
      {
        LookupUnfold(Views(), needed, symbol, i);
        var k := LibraryGet(BaseName(needed[i]));
        if k == |registry| {
          return 0;
        }
        var s := registry[k].GetSymbolByName(symbol);
        if s.Some? {
          return s.value.virt;
        }
      }
      address := 0;
    }

    /** elf_symbol_poke_value_to_virtual_address */
    method Poke(virt: Word, val: Word) returns (res: int)
      requires VirtToPhys(bounds, virt) != 0 ==> 0 <= VirtToPhys(bounds, virt) - memory <= mem.Length - 4
      modifies mem
      ensures res == if VirtToPhys(bounds, virt) == 0 then -EIO else 0
      ensures mem[..] == if res == 0 then Poked(old(mem[..]), VirtToPhys(bounds, virt) - memory, val) else old(mem[..])
    {
      var phys := VirtToPhys(bounds, virt);
      if phys == 0 {
        return -EIO;
      }
      var i := phys - memory;
      mem[i], mem[i + 1], mem[i + 2], mem[i + 3] := ByteOf(val, 0), ByteOf(val, 1), ByteOf(val, 2), ByteOf(val, 3);
      res := 0;
    }

    /** elf_resolve_relocation: a relative entry gets its own address as value. */
    method ResolveRelocation(rel: Rel) returns (res: int)
      requires Valid() && Info().Fits(rel, mem.Length)
      modifies mem
      ensures (res, mem[..]) == if Info().Refused(rel) < 0 then (Info().Refused(rel), old(mem[..]))
                                else (0, Poked(old(mem[..]), Info().Slot(rel), Info().Value(rel)))
    {
      hide Lookup, Poked, VirtToPhys, ViewOf;
      if rel.kind == Unsupported {
        return -EUNIMP;
      }
      if rel.kind == Relative {
        var address: Word := (bounds.vbase + rel.offset) % WORD;
        res := Poke(address, address);
      } else {
        var val := GetLoadedSymbolAddress(names[rel.sym]);
        res := Poke(rel.offset, val);
      }
    }

    /** elf_resolve_relocation_table */
    method ResolveTable(rels: seq<Rel>) returns (res: int)
      requires Valid() && forall rel :: rel in rels ==> Info().Fits(rel, mem.Length)
      modifies mem
      ensures res <= 0 && (res, mem[..]) == Applied(Info(), rels, old(mem[..]))
    {
      hide Link.Fits, Link.Slot, Link.Value, Poked;
      res := 0;
      ghost var start := mem[..];
      for i := 0 to |rels|
        invariant Applied(Info(), rels, start) == Applied(Info(), rels[i..], mem[..])
      {
        assert rels[i] in rels;
        assert rels[i..][0] == rels[i] && rels[i..][1..] == rels[i + 1..];
        res := ResolveRelocation(rels[i]);
        if res < 0 {
          return;
        }
      }
      res := 0;
    }

    /** elf_resolve_relocations over the SHT_REL sections in section order. */
    method ResolveRelocations(tables: seq<seq<Rel>>) returns (res: int)
      requires Valid() && forall t, rel :: t in tables && rel in t ==> Info().Fits(rel, mem.Length)
      modifies mem
      ensures forall rel :: rel in Flatten(tables) ==> Info().Fits(rel, mem.Length)
      ensures (res, mem[..]) == Applied(Info(), Flatten(tables), old(mem[..]))
    {
      hide Link.Fits, Applied;
      res := 0;
      ghost var start := mem[..];
      InFlatten(tables);
      for i := 0 to |tables|
        invariant forall rel :: rel in Flatten(tables[i..]) ==> Info().Fits(rel, mem.Length)
        invariant Applied(Info(), Flatten(tables), start) == Applied(Info(), Flatten(tables[i..]), mem[..])
      {
        assert tables[i] in tables;
        assert tables[i..][0] == tables[i] && tables[i..][1..] == tables[i + 1..];
        AppliedTwice(Info(), tables[i], Flatten(tables[i + 1..]), mem[..]);
        res := ResolveTable(tables[i]);
        if res < 0 {
          return;
        }
      }
      NothingApplied(Info(), mem[..]);
      res := 0;
    }
  }

  lemma NothingApplied(link: Link, mem: seq<Byte>)
    ensures Applied(link, [], mem) == (0, mem)
  {}

  lemma {:induction false} InFlatten(tables: seq<seq<Rel>>)
    ensures forall rel :: rel in Flatten(tables) ==> exists t :: t in tables && rel in t
  {
    if tables != [] {
      InFlatten(tables[1..]);
      forall rel | rel in Flatten(tables)
        ensures exists t :: t in tables && rel in t
      {
        if rel !in tables[0] {
          assert rel in Flatten(tables[1..]);
          var t :| t in tables[1..] && rel in t;
          assert t in tables;
        } else {
          assert tables[0] in tables;
        }
      }
    }
  }
}
