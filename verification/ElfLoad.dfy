/**
 Loading an executable with its libraries (src/loader/formats/elf/elfloader.c, src/loader/library.c): a
 depth-first walk over DT_NEEDED names. A library is registered under its file name before its own
 dependencies are looked at; a name that is registered is not loaded again.

 Every file that is opened takes a slot of the descriptor table (src/fs/file.c:67-85), and no slot is ever
 given back. So every load ends, whatever the files need; with no slot left fopen fails.
 */
module ElfLoad {
  import opened Kernel
  import opened Strings
  import opened Strtok
  import Paths

  /** ET_DYN, or anything else; only the first kind is registered. */
  datatype Kind = Library | Other

  /**
   What a file holds, as far as loading other files goes: the result of reading it and of
   elf_validate_loaded, its kind, its DT_NEEDED strings in tag order, and the result of the passes over
   sections, symbols and relocations, which is decided by the file alone.
   */
  datatype Image = Image(checked: int, kind: Kind, needed: seq<string>, later: int)

  /** A path that pathparser_parse accepts and gives a first component. */
  predicate Openable(path: string) {
    |path| < MAX_PATH && NUL !in path && Paths.ValidFormat(path) && |path| > 3 && path[3] != '/'
  }

  /** What fopen finds, by path. */
  type Files = files: map<string, Image> | forall p :: p in files ==> Openable(p)

  function BaseName(path: string): string {
    if Pieces(path, "/") == [] then "" else Last(Pieces(path, "/"))
  }

  /** The path elf_process_dynamic_tag_needed opens for a library name. */
  function LibraryPath(name: string): string {
    "0:/" + name
  }

  /** The result code, the registry, and the descriptors that are still free. */
  datatype LoadResult = Loaded(res: int, registry: seq<string>, free: nat)

  /** The registry once the file at path itself is registered, if it is a library. */
  function Registering(image: Image, path: string, registry: seq<string>): seq<string> {
    if image.kind == Library then registry + [BaseName(path)] else registry
  }

  /** elf_load with free descriptors left. */
  function Load(files: Files, free: nat, path: string, registry: seq<string>): (r: LoadResult)
    ensures r.free <= free
    decreases free, 0
  {
    if path !in files || free == 0 then Loaded(0, registry, free)
    else
      var image := files[path];
      if image.checked < 0 then Loaded(image.checked, registry, free - 1)
      else
        var r := LoadNeeded(files, free - 1, image.needed, Registering(image, path, registry));
        if r.res < 0 then r else r.(res := image.later)
  }

  /** elf_process_phdr_pt_dynamic over the remaining DT_NEEDED names. */
  function LoadNeeded(files: Files, free: nat, needed: seq<string>, registry: seq<string>): (r: LoadResult)
    ensures r.free <= free
    decreases free, |needed| + 1
  {
    if needed == [] then Loaded(0, registry, free)
    else
      var name := BaseName(needed[0]);
      if name in registry then LoadNeeded(files, free, needed[1..], registry)
      else
        var r := Load(files, free, LibraryPath(name), registry);
        if r.res < 0 then r else LoadNeeded(files, r.free, needed[1..], r.registry)
  }

  /** d descriptors that a load leaves over might as well not have been there. */
  lemma {:induction false} Spare(files: Files, free: nat, d: nat, path: string, registry: seq<string>)
    requires Load(files, free + d, path, registry).free >= d
    ensures var r := Load(files, free + d, path, registry);
            Load(files, free, path, registry) == r.(free := r.free - d)
    decreases free, 0
  {
    hide Pieces, BaseName;
    if path in files && free > 0 && files[path].checked >= 0 {
      SpareNeeded(files, free - 1, d, files[path].needed, Registering(files[path], path, registry));
    }
  }

  lemma {:induction false} SpareNeeded(files: Files, free: nat, d: nat, needed: seq<string>, registry: seq<string>)
    requires LoadNeeded(files, free + d, needed, registry).free >= d
    ensures var r := LoadNeeded(files, free + d, needed, registry);
            LoadNeeded(files, free, needed, registry) == r.(free := r.free - d)
    decreases free, |needed| + 1
  {
    hide Pieces, BaseName;
    if needed != [] {
      var name := BaseName(needed[0]);
      if name in registry {
        SpareNeeded(files, free, d, needed[1..], registry);
      } else {
        var r := Load(files, free + d, LibraryPath(name), registry);
        Spare(files, free, d, LibraryPath(name), registry);
        if r.res >= 0 {
          SpareNeeded(files, r.free - d, d, needed[1..], r.registry);
        }
      }
    }
  }

  /** A load that leaves a descriptor over goes the same way with d more, and leaves d more. */
  lemma {:induction false} More(files: Files, free: nat, d: nat, path: string, registry: seq<string>)
    requires Load(files, free, path, registry).free > 0
    ensures var r := Load(files, free, path, registry);
            Load(files, free + d, path, registry) == r.(free := r.free + d)
    decreases free, 0
  {
    hide Pieces, BaseName;
    if path in files && files[path].checked >= 0 {
      MoreNeeded(files, free - 1, d, files[path].needed, Registering(files[path], path, registry));
    }
  }

  lemma {:induction false} MoreNeeded(files: Files, free: nat, d: nat, needed: seq<string>, registry: seq<string>)
    requires LoadNeeded(files, free, needed, registry).free > 0
    ensures var r := LoadNeeded(files, free, needed, registry);
            LoadNeeded(files, free + d, needed, registry) == r.(free := r.free + d)
    decreases free, |needed| + 1
  {
    hide Pieces, BaseName;
    if needed != [] {
      var name := BaseName(needed[0]);
      if name in registry {
        MoreNeeded(files, free, d, needed[1..], registry);
      } else {
        More(files, free, d, LibraryPath(name), registry);
        var r := Load(files, free, LibraryPath(name), registry);
        if r.res >= 0 {
          MoreNeeded(files, r.free, d, needed[1..], r.registry);
        }
      }
    }
  }

  /** Loading only ever adds to the end of the registry. */
  lemma {:induction false} LoadExtends(files: Files, free: nat, path: string, registry: seq<string>)
    ensures registry <= Load(files, free, path, registry).registry
    decreases free, 0
  {
    hide BaseName;
    if path in files && free > 0 && files[path].checked >= 0 {
      LoadNeededExtends(files, free - 1, files[path].needed, Registering(files[path], path, registry));
    }
  }

  lemma {:induction false} LoadNeededExtends(files: Files, free: nat, needed: seq<string>, registry: seq<string>)
    ensures registry <= LoadNeeded(files, free, needed, registry).registry
    decreases free, |needed| + 1
  {
    hide BaseName;
    if needed != [] {
      var name := BaseName(needed[0]);
      if name in registry {
        LoadNeededExtends(files, free, needed[1..], registry);
      } else {
        LoadExtends(files, free, LibraryPath(name), registry);
        var r := Load(files, free, LibraryPath(name), registry);
        if r.res >= 0 {
          LoadNeededExtends(files, r.free, needed[1..], r.registry);
        }
      }
    }
  }

  // ----- file names

  predicate SlashFree(s: string) {
    forall k :: 0 <= k < |s| ==> s[k] != '/'
  }

  lemma {:induction false} SlashFreeEnd(s: string, i: nat, j: nat)
    requires i <= j <= |s| && (forall k :: i <= k < j ==> s[k] != '/') && (j == |s| || s[j] == '/')
    ensures NextEnd(s, "/", i) == j
    decreases j - i
  {
    if i < j { SlashFreeEnd(s, i + 1, j); }
  }

  /** The name a library is registered under is the name that was asked for. */
  lemma NameRoundTrip(name: string)
    requires name != "" && SlashFree(name)
    ensures BaseName(LibraryPath(name)) == name
  {
    var path := LibraryPath(name);
    assert path[0] == '0' && path[1] == ':' && path[2] == '/' && path[3..] == name;
    SlashFreeEnd(path, 0, 2);
    SlashFreeEnd(name, 0, |name|);
    assert After(path, 2) == name && After(name, |name|) == "";
    PiecesUnfold(path, "/");
    PiecesUnfold(name, "/");
    NoPieces("/");
    assert NextStart(path, "/", 0) == 0;
    assert NextStart(name, "/", 0) == 0;
    assert name[0..|name|] == name;
  }

  /** Pieces between slashes hold no slash and are not empty. */
  lemma {:induction false} PieceIsName(s: string, k: nat)
    requires k < |Pieces(s, "/")|
    ensures Pieces(s, "/")[k] != "" && SlashFree(Pieces(s, "/")[k])
    decreases |s|
  {
    hide Pieces, NextStart, NextEnd, SlashFree, After, IsDelim;
    PiecesUnfold(s, "/");
    var a := NextStart(s, "/", 0);
    var b := NextEnd(s, "/", a);
    FirstIsName(s, a);
    if k > 0 {
      AfterIsShorter(s, a, b);
      PieceIsName(After(s, b), k - 1);
    }
  }

  lemma FirstIsName(s: string, a: nat)
    requires a == NextStart(s, "/", 0) < |s|
    ensures s[a..NextEnd(s, "/", a)] != "" && SlashFree(s[a..NextEnd(s, "/", a)])
  {
    var b := NextEnd(s, "/", a);
    StartIs(s, "/", 0, a);
    forall i | 0 <= i < b - a
      ensures s[a..b][i] != '/'
    {
      EndIs(s, "/", a, a + i);
    }
  }

  lemma AfterIsShorter(s: string, a: nat, b: nat)
    requires a < |s| && b <= |s|
    ensures |After(s, b)| < |s|
  {}

  lemma BaseNameIsName(path: string)
    requires Pieces(path, "/") != []
    ensures BaseName(path) != "" && SlashFree(BaseName(path))
  {
    PieceIsName(path, |Pieces(path, "/")| - 1);
  }

  lemma OpenableHasName(path: string)
    requires Openable(path)
    ensures Pieces(path, "/") != []
  {
    PiecesUnfold(path, "/");
    assert !IsDelim(path[0], "/") && NextStart(path, "/", 0) == 0;
  }

  // ----- what is registered

  /** paths holds what its files need, by names that can be taken so. */
  ghost predicate NamedIn(files: Files, paths: set<string>) {
    forall p, n :: p in paths && p in files && n in files[p].needed ==>
      Nameable(n) && LibraryPath(BaseName(n)) in paths
  }

  /** A DT_NEEDED string that basename can take, and whose result fits a path buffer behind "0:/". */
  ghost predicate Nameable(n: string) {
    |n| < MAX_PATH && NUL !in n && Pieces(n, "/") != [] && |BaseName(n)| <= 104
  }

  ghost predicate IsLibrary(files: Files, name: string) {
    LibraryPath(name) in files && files[LibraryPath(name)].kind == Library
  }

  /** An accepted file that passes all later stages, and names its needs as its loader can take them. */
  ghost predicate Sane(image: Image) {
    image.checked >= 0 && image.later == 0 && forall n :: n in image.needed ==> Nameable(n)
  }

  /** Every name of t that is not a known one opens to a library that is sane. Other files may be anything. */
  ghost predicate Ready(files: Files, known: set<string>, t: set<string>) {
    forall m :: m in t && m !in known ==> IsLibrary(files, m) && Sane(files[LibraryPath(m)])
  }

  ghost function Names(needed: seq<string>): set<string> {
    set n | n in needed :: BaseName(n)
  }

  /** The names a registered library depends on. */
  ghost function Needs(files: Files, name: string): set<string> {
    if LibraryPath(name) in files then Names(files[LibraryPath(name)].needed) else {}
  }

  ghost function Elements(s: seq<string>): set<string> {
    set m | m in s
  }

  /** t holds what its names need, as far as they are not known. */
  ghost predicate Closed(files: Files, known: set<string>, t: set<string>) {
    forall m :: m in t && m !in known ==> Needs(files, m) <= t
  }

  /** after continues before with different new names. */
  ghost predicate Extended(before: seq<string>, after: seq<string>) {
    before <= after && forall i, j :: 0 <= i < j < |after| && j >= |before| ==> after[i] != after[j]
  }

  /** Among the names of after is all that was wanted, and all that the new ones need. */
  ghost predicate Complete(files: Files, before: seq<string>, after: seq<string>, wanted: set<string>) {
    wanted <= Elements(after) && forall m :: m in after && m !in before ==> Needs(files, m) <= Elements(after)
  }

  lemma ExtendedTwice(a: seq<string>, b: seq<string>, c: seq<string>)
    requires Extended(a, b) && Extended(b, c)
    ensures Extended(a, c)
  {
    forall i, j | 0 <= i < j < |c| && j >= |a|
      ensures c[i] != c[j]
    {
      if j < |b| { assert c[i] == b[i] && c[j] == b[j]; }
    }
  }

  lemma CompleteTwice(files: Files, a: seq<string>, b: seq<string>, c: seq<string>, v: set<string>, w: set<string>)
    requires b <= c && Complete(files, a, b, v) && Complete(files, b, c, w)
    ensures Complete(files, a, c, v + w)
  {
    hide Needs;
    forall m | m in b
      ensures m in Elements(c)
    {
      PrefixKeeps(b, c, m);
    }
  }

  lemma ByName(files: Files, before: seq<string>, after: seq<string>, name: string)
    requires name !in before && Extended(before + [name], after)
    ensures Extended(before, after) && name in after
    ensures Complete(files, before + [name], after, Needs(files, name)) ==> Complete(files, before, after, {name})
  {
    hide Needs;
    var mid := before + [name];
    assert after[|before|] == mid[|before|] == name;
    assert forall i :: 0 <= i < |before| ==> after[i] == mid[i] == before[i];
  }

  /** The number of new names. */
  lemma {:induction false} NewCount(before: seq<string>, after: seq<string>)
    requires Extended(before, after)
    ensures |Elements(after) - Elements(before)| == |after| - |before|
    decreases |after|
  {
    if after == before {
      assert Elements(after) - Elements(before) == {};
    } else {
      var n := |after| - 1;
      var front, m := after[..n], after[n];
      assert before <= front && after == front + [m];
      NewCount(before, front);
      if m in before { PrefixKeeps(before, front, m); }
      assert m !in front;
      assert Elements(after) - Elements(before) == (Elements(front) - Elements(before)) + {m};
    }
  }

  /**
   A library that is not registered yet: the load succeeds, stays within a closed set, takes one descriptor for
   each name it registers, and if it leaves one over, the library and all it needs are registered.
   */
  lemma {:induction false} LoadGrows(files: Files, free: nat, name: string, registry: seq<string>,
                                     known: set<string>, t: set<string>)
    requires Ready(files, known, t) && Closed(files, known, t) && known <= Elements(registry)
    requires name in t && name !in registry && name != "" && SlashFree(name)
    ensures var r := Load(files, free, LibraryPath(name), registry);
            && r.res == 0 && Extended(registry, r.registry) && Elements(r.registry) <= Elements(registry) + t
            && free - r.free == |r.registry| - |registry|
            && (r.free > 0 ==> Complete(files, registry, r.registry, {name}))
    decreases free, 0
  {
    hide Pieces, BaseName, Extended, Complete, SlashFree, Nameable;
    NameRoundTrip(name);
    assert name !in known && Needs(files, name) <= t;
    if free == 0 {
      NothingNew(files, registry);
    } else {
      var image := files[LibraryPath(name)];
      assert Elements(registry + [name]) == Elements(registry) + {name};
      LoadNeededGrows(files, free - 1, image.needed, registry + [name], known, t);
      ByName(files, registry, LoadNeeded(files, free - 1, image.needed, registry + [name]).registry, name);
    }
  }

  lemma NothingNew(files: Files, registry: seq<string>)
    ensures Extended(registry, registry) && Complete(files, registry, registry, {})
  {}

  lemma {:induction false} LoadNeededGrows(files: Files, free: nat, needed: seq<string>, registry: seq<string>,
                                           known: set<string>, t: set<string>)
    requires Ready(files, known, t) && Closed(files, known, t) && known <= Elements(registry)
    requires Names(needed) <= t && forall n :: n in needed ==> Nameable(n)
    ensures var r := LoadNeeded(files, free, needed, registry);
            && r.res == 0 && Extended(registry, r.registry) && Elements(r.registry) <= Elements(registry) + t
            && free - r.free == |r.registry| - |registry|
            && (r.free > 0 ==> Complete(files, registry, r.registry, Names(needed)))
    decreases free, |needed| + 1
  {
    hide Pieces, BaseName, SlashFree, IsLibrary, Needs, Extended, Complete, Ready, Closed;
    if needed == [] {
      assert Names(needed) == {};
      NothingNew(files, registry);
    } else {
      var name := BaseName(needed[0]);
      assert Nameable(needed[0]);
      assert Names(needed) == {name} + Names(needed[1..]);
      if name in registry {
        LoadNeededGrows(files, free, needed[1..], registry, known, t);
        AlsoThere(files, registry, LoadNeeded(files, free, needed[1..], registry).registry, name, Names(needed[1..]));
      } else {
        BaseNameIsName(needed[0]);
        LoadGrows(files, free, name, registry, known, t);
        var mid := Load(files, free, LibraryPath(name), registry);
        OldOnesStay(registry, mid.registry);
        LoadNeededGrows(files, mid.free, needed[1..], mid.registry, known, t);
        Joined(files, registry, mid.registry, LoadNeeded(files, mid.free, needed[1..], mid.registry),
               name, Names(needed[1..]));
      }
    }
  }

  lemma AlsoThere(files: Files, before: seq<string>, after: seq<string>, name: string, w: set<string>)
    requires name in before && Extended(before, after)
    ensures Complete(files, before, after, w) ==> Complete(files, before, after, {name} + w)
  {
    hide Needs;
    PrefixKeeps(before, after, name);
  }

  lemma Joined(files: Files, a: seq<string>, b: seq<string>, r: LoadResult, name: string, w: set<string>)
    requires Extended(a, b) && Extended(b, r.registry)
    ensures Extended(a, r.registry)
    ensures Complete(files, a, b, {name}) && Complete(files, b, r.registry, w) ==>
              Complete(files, a, r.registry, {name} + w)
  {
    ExtendedTwice(a, b, r.registry);
    if Complete(files, a, b, {name}) && Complete(files, b, r.registry, w) {
      CompleteTwice(files, a, b, r.registry, {name}, w);
    }
  }

  lemma PrefixKeeps(a: seq<string>, b: seq<string>, m: string)
    requires a <= b && m in a
    ensures m in b
  {
    var i :| 0 <= i < |a| && a[i] == m;
    assert b[i] == m;
  }

  /** The least set of names that holds the known ones and base and is closed. */
  ghost predicate LeastClosed(files: Files, known: set<string>, base: set<string>, t: set<string>) {
    known + base <= t && Closed(files, known, t) && forall u :: known + base <= u && Closed(files, known, u) ==> t <= u
  }

  /** What the executable at path makes of a registry: its names and all that the executable needs. */
  ghost predicate Closure(files: Files, path: string, registry: seq<string>, t: set<string>) {
    path in files && LeastClosed(files, Elements(registry), Names(files[path].needed), t)
  }

  /** The executable and all that is to be loaded for it are sane, and libraries where they have to be. */
  ghost predicate ReadyToLoad(files: Files, path: string, registry: seq<string>, t: set<string>) {
    path in files && files[path].kind == Other && Sane(files[path]) && Ready(files, Elements(registry), t)
  }

  lemma LoadKeepsWithin(files: Files, free: nat, path: string, registry: seq<string>, t: set<string>)
    requires ReadyToLoad(files, path, registry, t) && Closure(files, path, registry, t) && free > 0
    ensures var r := Load(files, free, path, registry);
            && r.res == 0 && Extended(registry, r.registry) && Elements(r.registry) <= t
            && free - r.free == 1 + |Elements(r.registry) - Elements(registry)|
            && (r.free > 0 ==> Complete(files, registry, r.registry, Names(files[path].needed)))
  {
    hide Pieces, BaseName, Needs, Complete, Extended, Ready, Closed, Nameable;
    var needed := files[path].needed;
    LoadNeededGrows(files, free - 1, needed, registry, Elements(registry), t);
    NewCount(registry, LoadNeeded(files, free - 1, needed, registry).registry);
  }

  /** A complete registry holds the whole closure. */
  lemma CompleteIsAll(files: Files, path: string, registry: seq<string>, after: seq<string>, t: set<string>)
    requires Closure(files, path, registry, t) && Extended(registry, after)
    requires Complete(files, registry, after, Names(files[path].needed))
    ensures t <= Elements(after)
  {
    hide Needs;
    OldOnesStay(registry, after);
  }

  /**
   Loading an executable: the call returns 0, the registry keeps its old names in place and gains different new
   ones, all of them in the closure t of the old ones and the DT_NEEDED names of the executable. It is all of t if
   and only if the executable and the new names fit the free descriptors, or there are no new names. Dependencies
   may be cyclic, and files that are not reached may be anything.
   */
  lemma LoadRegistersClosure(files: Files, free: nat, path: string, registry: seq<string>, t: set<string>)
    requires ReadyToLoad(files, path, registry, t) && Closure(files, path, registry, t)
    ensures var r := Load(files, free, path, registry);
            && r.res == 0 && Extended(registry, r.registry) && Elements(r.registry) <= t
            && (Elements(r.registry) == t <==> 1 + |t - Elements(registry)| <= free || t == Elements(registry))
  {
    hide Load, ReadyToLoad, Closure, Extended;
    var r := Load(files, free, path, registry);
    OldOnesIn(files, path, registry, t);
    if free == 0 {
      NothingLeft(files, path, registry);
    } else {
      LoadKeepsWithin(files, free, path, registry, t);
      OldOnesStay(registry, r.registry);
      if 1 + |t - Elements(registry)| <= free {
        FitsThenAll(files, free, path, registry, t);
      }
      if Elements(r.registry) == t {
        assert 1 + |t - Elements(registry)| <= free;
      }
    }
  }

  lemma OldOnesIn(files: Files, path: string, registry: seq<string>, t: set<string>)
    requires Closure(files, path, registry, t)
    ensures Elements(registry) + Names(files[path].needed) <= t
  {}

  lemma NothingLeft(files: Files, path: string, registry: seq<string>)
    ensures Load(files, 0, path, registry) == Loaded(0, registry, 0) && Extended(registry, registry)
  {}

  lemma FitsThenAll(files: Files, free: nat, path: string, registry: seq<string>, t: set<string>)
    requires ReadyToLoad(files, path, registry, t) && Closure(files, path, registry, t)
    requires 1 + |t - Elements(registry)| <= free
    ensures t <= Elements(Load(files, free, path, registry).registry)
  {
    hide Load, ReadyToLoad, Closure, Complete, Extended, Elements, Names;
    LoadKeepsWithin(files, free + 1, path, registry, t);
    var s := Load(files, free + 1, path, registry);
    SubsetSize(Elements(s.registry) - Elements(registry), t - Elements(registry));
    InFiles(files, path, registry, t);
    CompleteIsAll(files, path, registry, s.registry, t);
    Spare(files, free, 1, path, registry);
  }

  lemma InFiles(files: Files, path: string, registry: seq<string>, t: set<string>)
    requires Closure(files, path, registry, t)
    ensures path in files
  {}

  lemma OldOnesStay(before: seq<string>, after: seq<string>)
    requires Extended(before, after)
    ensures Elements(before) <= Elements(after)
  {
    forall m | m in before
      ensures m in after
    {
      PrefixKeeps(before, after, m);
    }
  }

  // ----- what a result of 0 means

  /** What a load of a needed name registers opens, by its name, to a library. */
  lemma {:induction false} OnlyLibraries(files: Files, paths: set<string>, free: nat, name: string,
                                         registry: seq<string>, m: string)
    requires NamedIn(files, paths) && LibraryPath(name) in paths && name != "" && SlashFree(name)
    ensures m in Load(files, free, LibraryPath(name), registry).registry ==> m in registry || IsLibrary(files, m)
    decreases free, 0
  {
    hide Pieces, BaseName, SlashFree;
    NameRoundTrip(name);
    var path := LibraryPath(name);
    if path in files && free > 0 && files[path].checked >= 0 {
      OnlyLibrariesNeeded(files, paths, free - 1, files[path].needed, Registering(files[path], path, registry), m);
    }
  }

  /** The needed names can be taken and lead to paths. */
  ghost predicate NeedsIn(needed: seq<string>, paths: set<string>) {
    forall n :: n in needed ==> Nameable(n) && LibraryPath(BaseName(n)) in paths
  }

  lemma {:induction false} OnlyLibrariesNeeded(files: Files, paths: set<string>, free: nat, needed: seq<string>,
                                               registry: seq<string>, m: string)
    requires NamedIn(files, paths) && NeedsIn(needed, paths)
    ensures m in LoadNeeded(files, free, needed, registry).registry ==> m in registry || IsLibrary(files, m)
    decreases free, |needed| + 1
  {
    hide Pieces, BaseName, SlashFree, IsLibrary, NamedIn;
    if needed != [] {
      var name := BaseName(needed[0]);
      assert needed[0] in needed && Nameable(needed[0]);
      if name in registry {
        OnlyLibrariesNeeded(files, paths, free, needed[1..], registry, m);
      } else {
        BaseNameIsName(needed[0]);
        OnlyLibraries(files, paths, free, name, registry, m);
        var r := Load(files, free, LibraryPath(name), registry);
        OnlyLibrariesNeeded(files, paths, r.free, needed[1..], r.registry, m);
      }
    }
  }

  /** A load that succeeds with a descriptor to spare has registered the library it was asked for. */
  lemma LibraryRegistered(files: Files, free: nat, name: string, registry: seq<string>)
    requires IsLibrary(files, name) && name != "" && SlashFree(name)
    requires var r := Load(files, free, LibraryPath(name), registry); r.res >= 0 && r.free > 0
    ensures name in Load(files, free, LibraryPath(name), registry).registry
  {
    hide Pieces, BaseName, SlashFree;
    NameRoundTrip(name);
    var image := files[LibraryPath(name)];
    LoadNeededExtends(files, free - 1, image.needed, registry + [name]);
    assert name in registry + [name];
    PrefixKeeps(registry + [name], LoadNeeded(files, free - 1, image.needed, registry + [name]).registry, name);
  }

  /** Name by name: a needed name is registered at the end if it was before, or opens to a library. */
  lemma {:induction false} NeededRegistered(files: Files, paths: set<string>, free: nat, needed: seq<string>,
                                            registry: seq<string>, n: string)
    requires NamedIn(files, paths) && NeedsIn(needed, paths)
    requires var r := LoadNeeded(files, free, needed, registry); r.res >= 0 && r.free > 0
    requires n in needed
    ensures BaseName(n) in LoadNeeded(files, free, needed, registry).registry <==>
            BaseName(n) in registry || IsLibrary(files, BaseName(n))
    decreases |needed|
  {
    hide Pieces, BaseName, SlashFree, IsLibrary, NamedIn;
    var name := BaseName(needed[0]);
    assert needed[0] in needed && Nameable(needed[0]);
    if name in registry {
      StillRegistered(files, free, needed[1..], registry, name);
      if n in needed[1..] { NeededRegistered(files, paths, free, needed[1..], registry, n); }
    } else {
      BaseNameIsName(needed[0]);
      var r := Load(files, free, LibraryPath(name), registry);
      OnlyLibraries(files, paths, free, name, registry, BaseName(n));
      LoadExtends(files, free, LibraryPath(name), registry);
      if BaseName(n) in registry { PrefixKeeps(registry, r.registry, BaseName(n)); }
      if n in needed[1..] {
        NeededRegistered(files, paths, r.free, needed[1..], r.registry, n);
      } else {
        OnlyLibrariesNeeded(files, paths, r.free, needed[1..], r.registry, name);
        if IsLibrary(files, name) {
          LibraryRegistered(files, free, name, registry);
          StillRegistered(files, r.free, needed[1..], r.registry, name);
        }
      }
    }
  }

  lemma StillRegistered(files: Files, free: nat, needed: seq<string>, registry: seq<string>, name: string)
    requires name in registry
    ensures name in LoadNeeded(files, free, needed, registry).registry
  {
    LoadNeededExtends(files, free, needed, registry);
    PrefixKeeps(registry, LoadNeeded(files, free, needed, registry).registry, name);
  }

  /** Each needed name was registered before, or opens to a library. */
  ghost predicate AllOpen(files: Files, path: string, registry: seq<string>)
    requires path in files
  {
    forall n :: n in files[path].needed ==>
      BaseName(n) in Registering(files[path], path, registry) || IsLibrary(files, BaseName(n))
  }

  lemma LoadIsNeeded(files: Files, paths: set<string>, free: nat, path: string, registry: seq<string>)
    requires NamedIn(files, paths) && path in paths && path in files
    requires var r := Load(files, free, path, registry); r.res >= 0 && r.free > 0
    ensures free > 0 && NeedsIn(files[path].needed, paths)
    ensures var n := LoadNeeded(files, free - 1, files[path].needed, Registering(files[path], path, registry));
            n.res >= 0 && n.free > 0 && Load(files, free, path, registry).registry == n.registry
  {
    hide BaseName, LibraryPath;
  }

  /** A load that succeeds with a descriptor to spare: all needed names are registered exactly when they all open. */
  lemma SpareMeansRegistered(files: Files, paths: set<string>, free: nat, path: string, registry: seq<string>)
    requires NamedIn(files, paths) && path in paths && path in files
    requires var r := Load(files, free, path, registry); r.res >= 0 && r.free > 0
    ensures (forall n :: n in files[path].needed ==> BaseName(n) in Load(files, free, path, registry).registry) <==>
            AllOpen(files, path, registry)
  {
    hide BaseName, IsLibrary, Registering, Nameable, LibraryPath, LoadNeeded, NamedIn, NeedsIn;
    LoadIsNeeded(files, paths, free, path, registry);
    var needed := files[path].needed;
    forall n | n in needed
      ensures BaseName(n) in Load(files, free, path, registry).registry <==>
              BaseName(n) in Registering(files[path], path, registry) || IsLibrary(files, BaseName(n))
    {
      NeededRegistered(files, paths, free - 1, needed, Registering(files[path], path, registry), n);
    }
  }

  // ----- failures

  /** The file is accepted and passes the later stages. */
  ghost predicate Passes(files: Files, path: string) {
    path in files && files[path].checked >= 0 && files[path].later >= 0
  }

  /** Each new name opens to a library that has passed. */
  ghost predicate NewOnesPassed(files: Files, before: seq<string>, after: seq<string>) {
    forall m :: m in after && m !in before ==> IsLibrary(files, m) && Passes(files, LibraryPath(m))
  }

  lemma PassedTwice(files: Files, a: seq<string>, b: seq<string>, c: seq<string>)
    requires NewOnesPassed(files, a, b) && NewOnesPassed(files, b, c)
    ensures NewOnesPassed(files, a, c)
  {}

  /** A load by name succeeds only if all that it registers has passed; it fails only if a file in reach has not. */
  lemma {:induction false} LoadPasses(files: Files, paths: set<string>, free: nat, name: string, registry: seq<string>)
    requires NamedIn(files, paths) && LibraryPath(name) in paths && name != "" && SlashFree(name)
    ensures var r := Load(files, free, LibraryPath(name), registry);
            if r.res >= 0 then NewOnesPassed(files, registry, r.registry)
            else exists p :: p in paths && p in files && !Passes(files, p)
    decreases free, 0
  {
    hide Pieces, BaseName, SlashFree, Nameable;
    NameRoundTrip(name);
    var path := LibraryPath(name);
    if path in files && free > 0 {
      if files[path].checked < 0 || files[path].later < 0 {
        assert !Passes(files, path);
      }
      if files[path].checked >= 0 {
        NeedsPass(files, paths, free - 1, files[path].needed, Registering(files[path], path, registry));
      }
    }
  }

  lemma {:induction false} NeedsPass(files: Files, paths: set<string>, free: nat, needed: seq<string>,
                                     registry: seq<string>)
    requires NamedIn(files, paths) && NeedsIn(needed, paths)
    ensures var r := LoadNeeded(files, free, needed, registry);
            if r.res >= 0 then NewOnesPassed(files, registry, r.registry)
            else exists p :: p in paths && p in files && !Passes(files, p)
    decreases free, |needed| + 1
  {
    hide Pieces, BaseName, SlashFree, NamedIn, Passes, IsLibrary;
    if needed != [] {
      var name := BaseName(needed[0]);
      assert needed[0] in needed && Nameable(needed[0]);
      if name in registry {
        NeedsPass(files, paths, free, needed[1..], registry);
      } else {
        BaseNameIsName(needed[0]);
        LoadPasses(files, paths, free, name, registry);
        var r := Load(files, free, LibraryPath(name), registry);
        if r.res >= 0 {
          NeedsPass(files, paths, r.free, needed[1..], r.registry);
          var rest := LoadNeeded(files, r.free, needed[1..], r.registry);
          if rest.res >= 0 { PassedTwice(files, registry, r.registry, rest.registry); }
        }
      }
    }
  }

  /**
   The result of loading an executable that is there, with a descriptor free: its own later result when it and all
   that is registered for it have passed; negative only if it, or a file in its reach, has not.
   */
  lemma LoadResultMeans(files: Files, paths: set<string>, free: nat, path: string, registry: seq<string>)
    requires NamedIn(files, paths) && path in paths && path in files && files[path].kind == Other && free > 0
    ensures var r := Load(files, free, path, registry);
            if r.res >= 0
            then Passes(files, path) && r.res == files[path].later && NewOnesPassed(files, registry, r.registry)
            else exists p :: p in paths && p in files && !Passes(files, p)
  {
    hide BaseName, Nameable, LoadNeeded;
    if files[path].checked < 0 || files[path].later < 0 {
      assert !Passes(files, path);
    }
    if files[path].checked >= 0 {
      NeedsPass(files, paths, free - 1, files[path].needed, registry);
    }
  }

  lemma PlainName(name: string)
    requires name != "" && SlashFree(name)
    ensures Pieces(name, "/") == [name] && BaseName(name) == name
  {
    NameRoundTrip(name);
    SlashFreeEnd(name, 0, |name|);
    PiecesUnfold(name, "/");
    NoPieces("/");
    assert NextStart(name, "/", 0) == 0 && name[0..|name|] == name && After(name, |name|) == "";
  }

  lemma OneNeeded(files: Files, free: nat, n: string)
    requires n != "" && SlashFree(n)
    ensures var r := Load(files, free, LibraryPath(n), []);
            LoadNeeded(files, free, [n], []) == if r.res < 0 then r else r.(res := 0)
  {
    hide BaseName, SlashFree;
    PlainName(n);
    var r := Load(files, free, LibraryPath(n), []);
    assert [n][1..] == [];
    assert LoadNeeded(files, r.free, [], r.registry) == Loaded(0, r.registry, r.free);
  }

  /** An executable whose library is not on the disk is loaded with result 0, and the library is missing. */
  lemma MissingLibrary()
    ensures var files: Files := map["0:/a" := Image(0, Other, ["b"], 0)];
            Load(files, 128, "0:/a", []) == Loaded(0, [], 127)
  {
    hide BaseName, LoadNeeded;
    var files: Files := map["0:/a" := Image(0, Other, ["b"], 0)];
    assert LibraryPath("b")[3] == 'b';
    OneNeeded(files, 127, "b");
  }

  /** With one descriptor left the executable is loaded with result 0, and its library is not. */
  lemma NoDescriptorLeft()
    ensures var files: Files := map["0:/a" := Image(0, Other, ["b"], 0), "0:/b" := Image(0, Library, [], 0)];
            Load(files, 1, "0:/a", []) == Loaded(0, [], 0)
  {
    hide BaseName, LoadNeeded;
    var files: Files := map["0:/a" := Image(0, Other, ["b"], 0), "0:/b" := Image(0, Library, [], 0)];
    OneNeeded(files, 0, "b");
  }
}
