/**
 How many descriptors loading takes. A library is registered before its dependencies are loaded, so cycles
 through libraries are cut. A file that is not ET_DYN is never registered: a cycle of such files is followed
 until no descriptor is left. Some number of descriptors is enough for every load exactly when there is no
 such cycle.

 All of it is about the files at a set of paths that holds what they need; the rest of the disk may be anything.
 */
module ElfDescriptors {
  import opened Kernel
  import opened Strings
  import opened Strtok
  import opened ElfLoad

  /** p is an accepted file that is not a library, so that loading it leaves no trace in the registry. */
  ghost predicate Untraced(files: Files, p: string) {
    p in files && files[p].checked >= 0 && files[p].kind == Other
  }

  /** The file at p needs a name that opens q. */
  ghost predicate Edge(files: Files, p: string, q: string) {
    p in files && exists n :: n in files[p].needed && LibraryPath(BaseName(n)) == q
  }

  /** Ranks that fall along every DT_NEEDED edge between files that are not libraries: no cycle of those. */
  ghost predicate Ranked(files: Files, paths: set<string>, rank: map<string, nat>) {
    && paths <= rank.Keys
    && forall p, q :: p in paths && q in paths && Untraced(files, p) && Untraced(files, q) && Edge(files, p, q) ==>
         rank[q] < rank[p]
  }

  /** With enough descriptors one is left over: none was missing. */
  ghost predicate Enough(files: Files, path: string, registry: seq<string>) {
    exists n :: Load(files, n, path, registry).free > 0
  }

  /** The libraries that opening by name would still register. */
  ghost function Unregistered(files: Files, paths: set<string>, registry: seq<string>): set<string> {
    set p | p in paths && p in files && files[p].kind == Library && p == LibraryPath(BaseName(p)) &&
            BaseName(p) !in registry
  }

  lemma FewerUnregistered(files: Files, paths: set<string>, a: seq<string>, b: seq<string>)
    requires a <= b
    ensures |Unregistered(files, paths, b)| <= |Unregistered(files, paths, a)|
  {
    hide BaseName;
    forall p | p in Unregistered(files, paths, b)
      ensures p in Unregistered(files, paths, a)
    {
      if BaseName(p) in a { PrefixKeeps(a, b, BaseName(p)); }
    }
    SubsetSize(Unregistered(files, paths, b), Unregistered(files, paths, a));
  }

  lemma RegisteringShrinks(files: Files, paths: set<string>, p: string, registry: seq<string>)
    requires p in Unregistered(files, paths, registry)
    ensures |Unregistered(files, paths, registry + [BaseName(p)])| < |Unregistered(files, paths, registry)|
  {
    hide BaseName;
    var after := registry + [BaseName(p)];
    FewerUnregistered(files, paths, registry, after);
    assert p !in Unregistered(files, paths, after);
    forall q | q in Unregistered(files, paths, after)
      ensures q in Unregistered(files, paths, registry) - {p}
    {
      if BaseName(q) in registry { PrefixKeeps(registry, after, BaseName(q)); }
    }
    SubsetSize(Unregistered(files, paths, after), Unregistered(files, paths, registry) - {p});
  }

  /** A library opened by name, that is not registered yet. */
  lemma OpenedByName(files: Files, paths: set<string>, n: string, registry: seq<string>)
    requires Pieces(n, "/") != [] && BaseName(n) !in registry && IsLibrary(files, BaseName(n))
    requires LibraryPath(BaseName(n)) in paths
    ensures LibraryPath(BaseName(n)) in Unregistered(files, paths, registry)
  {
    hide SlashFree, BaseName;
    BaseNameIsName(n);
    NameRoundTrip(BaseName(n));
  }

  // ----- without a cycle

  ghost predicate Bounded(files: Files, paths: set<string>, rank: map<string, nat>, bound: nat) {
    Ranked(files, paths, rank) && forall p :: p in paths ==> rank[p] < bound
  }

  /** What falls at each nested call that registers nothing. */
  ghost function Level(files: Files, paths: set<string>, rank: map<string, nat>, bound: nat, path: string,
                       registry: seq<string>): nat
    requires Bounded(files, paths, rank, bound) && path in paths
  {
    if Untraced(files, path) then 2 * rank[path] + 2
    else if path !in files || files[path].checked < 0 || path in Unregistered(files, paths, registry) then 0
    else 2 * bound + 2
  }

  /** The level of the names an image needs. */
  ghost predicate Below(files: Files, paths: set<string>, rank: map<string, nat>, bound: nat, needed: seq<string>,
                        level: nat)
    requires Bounded(files, paths, rank, bound)
  {
    && level > 0 && NeedsIn(needed, paths)
    && forall n :: n in needed && Untraced(files, LibraryPath(BaseName(n))) ==>
         2 * rank[LibraryPath(BaseName(n))] + 2 < level
  }

  /** The level at which an image's own needs are loaded, and the registry then. */
  lemma NeedsBelow(files: Files, paths: set<string>, rank: map<string, nat>, bound: nat, path: string)
    requires NamedIn(files, paths) && Bounded(files, paths, rank, bound)
    requires path in paths && path in files && files[path].checked >= 0
    ensures var image := files[path];
            if image.kind == Other then Below(files, paths, rank, bound, image.needed, 2 * rank[path] + 1)
            else Below(files, paths, rank, bound, image.needed, 2 * bound + 1)
  {
    hide BaseName, Pieces, Nameable;
    forall n | n in files[path].needed && Untraced(files, LibraryPath(BaseName(n))) && files[path].kind == Other
      ensures rank[LibraryPath(BaseName(n))] < rank[path]
    {
      assert Edge(files, path, LibraryPath(BaseName(n)));
    }
  }

  lemma HasRanks(files: Files, paths: set<string>, rank: map<string, nat>)
    requires Ranked(files, paths, rank)
    ensures paths <= rank.Keys
  {}

  lemma {:induction false} RankedEnough(files: Files, paths: set<string>, rank: map<string, nat>, bound: nat,
                                        path: string, registry: seq<string>)
    requires NamedIn(files, paths) && Bounded(files, paths, rank, bound) && path in paths
    ensures Enough(files, path, registry)
    decreases |Unregistered(files, paths, registry)|, Level(files, paths, rank, bound, path, registry), 0
  {
    hide BaseName, Pieces, NamedIn, Unregistered, Ranked;
    if path !in files || files[path].checked < 0 {
      assert Load(files, 2, path, registry).free > 0;
    } else {
      var image := files[path];
      var registered := Registering(image, path, registry);
      NeedsBelow(files, paths, rank, bound, path);
      HasRanks(files, paths, rank);
      if image.kind == Library {
        FewerUnregistered(files, paths, registry, registered);
        if path in Unregistered(files, paths, registry) { RegisteringShrinks(files, paths, path, registry); }
      }
      var n := RankedNeedsEnough(files, paths, rank, bound, image.needed, registered,
                                 if image.kind == Other then 2 * rank[path] + 1 else 2 * bound + 1);
      assert Load(files, n + 1, path, registry).free > 0;
    }
  }

  lemma {:induction false} RankedNeedsEnough(files: Files, paths: set<string>, rank: map<string, nat>, bound: nat,
                                             needed: seq<string>, registry: seq<string>, level: nat) returns (n: nat)
    requires NamedIn(files, paths) && Bounded(files, paths, rank, bound)
    requires Below(files, paths, rank, bound, needed, level) && level <= 2 * bound + 1
    ensures LoadNeeded(files, n, needed, registry).free > 0
    decreases |Unregistered(files, paths, registry)|, level, |needed|
  {
    hide BaseName, Pieces, NamedIn, Ranked, Unregistered, LoadNeeded, Load;
    if needed == [] {
      NoNeeds(files, 1, registry);
      return 1;
    }
    var name := BaseName(needed[0]);
    assert needed[0] in needed && Nameable(needed[0]);
    assert Below(files, paths, rank, bound, needed[1..], level);
    FirstNeeded(files, needed, registry);
    if name in registry {
      n := RankedNeedsEnough(files, paths, rank, bound, needed[1..], registry, level);
      return;
    }
    var path := LibraryPath(name);
    if path in files && files[path].checked >= 0 && files[path].kind == Library {
      OpenedByName(files, paths, needed[0], registry);
    }
    RankedEnough(files, paths, rank, bound, path, registry);
    var first: nat :| Load(files, first, path, registry).free > 0;
    LoadExtends(files, first, path, registry);
    var r := Load(files, first, path, registry);
    if r.res < 0 {
      return first;
    }
    FewerUnregistered(files, paths, registry, r.registry);
    var rest := RankedNeedsEnough(files, paths, rank, bound, needed[1..], r.registry, level);
    n := first + rest;
    More(files, first, rest, path, registry);
    MoreNeeded(files, rest, r.free, needed[1..], r.registry);
    assert rest + r.free == r.free + rest;
  }

  lemma NoNeeds(files: Files, free: nat, registry: seq<string>)
    ensures LoadNeeded(files, free, [], registry) == Loaded(0, registry, free)
  {}

  /** One step along the needed names, for any number of descriptors. */
  lemma FirstNeeded(files: Files, needed: seq<string>, registry: seq<string>)
    requires needed != []
    ensures forall free: nat :: LoadNeeded(files, free, needed, registry) ==
              if BaseName(needed[0]) in registry then LoadNeeded(files, free, needed[1..], registry)
              else
                var r := Load(files, free, LibraryPath(BaseName(needed[0])), registry);
                if r.res < 0 then r else LoadNeeded(files, r.free, needed[1..], r.registry)
  {
    hide BaseName, Load;
  }

  // ----- with a cycle

  /** Every file of s needs another one of s. */
  ghost predicate Stuck(files: Files, s: set<string>) {
    && s != {} && (forall p :: p in s ==> Untraced(files, p))
    && forall p :: p in s ==> exists q :: q in s && Edge(files, p, q)
  }

  /** The registry holds the names that lead out of s, and none that leads into it. */
  ghost predicate Around(files: Files, s: set<string>, registry: seq<string>) {
    && (forall m :: m in registry ==> LibraryPath(m) !in s)
    && forall p :: p in s && p in files ==> Covered(files[p].needed, s, registry)
  }

  /** All the names lead into s or are registered. */
  ghost predicate Covered(needed: seq<string>, s: set<string>, registry: seq<string>) {
    forall n :: n in needed ==> LibraryPath(BaseName(n)) in s || BaseName(n) in registry
  }

  /** Over such a registry a load that starts in s takes every descriptor there is. */
  lemma {:induction false} StuckTakesAll(files: Files, s: set<string>, registry: seq<string>, free: nat, p: string)
    requires Stuck(files, s) && Around(files, s, registry) && p in s
    ensures Load(files, free, p, registry).free == 0
    decreases free, 0
  {
    hide BaseName, LoadNeeded, Stuck, Around, Covered, LeadsInto;
    StuckNeeds(files, s, registry, p);
    if free > 0 {
      StuckNeedsTakeAll(files, s, registry, free - 1, files[p].needed);
    }
  }

  /** One of the names leads into s. */
  ghost predicate LeadsInto(needed: seq<string>, s: set<string>) {
    exists n :: n in needed && LibraryPath(BaseName(n)) in s
  }

  lemma StuckNeeds(files: Files, s: set<string>, registry: seq<string>, p: string)
    requires Stuck(files, s) && Around(files, s, registry) && p in s
    ensures Untraced(files, p) && Covered(files[p].needed, s, registry) && LeadsInto(files[p].needed, s)
  {
    hide BaseName, LibraryPath, Covered, Edge, LeadsInto, Untraced;
    var q :| q in s && Edge(files, p, q);
    UntracedIsThere(files, p);
    EdgeLeadsInto(files, p, q, s);
  }

  lemma UntracedIsThere(files: Files, p: string)
    requires Untraced(files, p)
    ensures p in files
  {}

  lemma EdgeLeadsInto(files: Files, p: string, q: string, s: set<string>)
    requires Edge(files, p, q) && q in s
    ensures LeadsInto(files[p].needed, s)
  {
    hide BaseName, LibraryPath;
  }

  lemma NotInto(files: Files, s: set<string>, registry: seq<string>)
    requires Around(files, s, registry)
    ensures forall m :: m in registry ==> LibraryPath(m) !in s
  {}

  lemma {:induction false} StuckNeedsTakeAll(files: Files, s: set<string>, registry: seq<string>, free: nat,
                                             needed: seq<string>)
    requires Stuck(files, s) && Around(files, s, registry)
    requires Covered(needed, s, registry) && LeadsInto(needed, s)
    ensures LoadNeeded(files, free, needed, registry).free == 0
    decreases free, |needed| + 1
  {
    hide BaseName, Load, Stuck, Around, LibraryPath;
    NotInto(files, s, registry);
    var n :| n in needed && LibraryPath(BaseName(n)) in s;
    if BaseName(needed[0]) in registry {
      assert n in needed[1..];
      StuckNeedsTakeAll(files, s, registry, free, needed[1..]);
    } else {
      StuckTakesAll(files, s, registry, free, LibraryPath(BaseName(needed[0])));
    }
  }

  ghost function InSomeOrder(s: set<string>): (r: seq<string>)
    ensures forall m :: m in r <==> m in s
    decreases |s|
  {
    if s == {} then []
    else
      var m :| m in s;
      [m] + InSomeOrder(s - {m})
  }

  /** The names of which the files of s need those that lead out of s. */
  ghost function NamesOut(files: Files, s: set<string>): (names: set<string>)
    ensures forall m :: m in names ==> LibraryPath(m) !in s
    ensures forall p, n :: p in s && p in files && n in files[p].needed && LibraryPath(BaseName(n)) !in s ==>
              BaseName(n) in names
  {
    set p, n | p in s && p in files && n in files[p].needed && LibraryPath(BaseName(n)) !in s :: BaseName(n)
  }

  lemma NotEmpty(files: Files, s: set<string>)
    requires Stuck(files, s)
    ensures s != {}
  {}

  lemma OutIsAround(files: Files, s: set<string>, registry: seq<string>)
    requires forall m :: m in registry <==> m in NamesOut(files, s)
    ensures Around(files, s, registry)
  {
    hide BaseName, LibraryPath, NamesOut;
  }

  lemma StuckNeverEnough(files: Files, s: set<string>) returns (p: string, registry: seq<string>)
    requires Stuck(files, s)
    ensures p in s && !Enough(files, p, registry)
  {
    hide BaseName, Load, NamesOut, Stuck, Around;
    NotEmpty(files, s);
    p :| p in s;
    registry := InSomeOrder(NamesOut(files, s));
    OutIsAround(files, s, registry);
    forall n: nat
      ensures Load(files, n, p, registry).free == 0
    {
      StuckTakesAll(files, s, registry, n, p);
    }
  }

  /** A set of files none of whose parts is stuck can be ranked. */
  lemma {:induction false} Peel(files: Files, s: set<string>) returns (rank: map<string, nat>)
    requires forall p :: p in s ==> Untraced(files, p)
    requires forall u :: u <= s ==> !Stuck(files, u)
    ensures rank.Keys == s
    ensures forall p, q :: p in s && q in s && Edge(files, p, q) ==> rank[q] < rank[p]
    decreases |s|
  {
    hide Edge, Untraced, Stuck;
    if s == {} {
      rank := map[];
    } else {
      var p := Leaf(files, s);
      var rest := Peel(files, s - {p});
      rank := map q | q in s :: if q == p then 0 else rest[q] + 1;
    }
  }

  lemma Leaf(files: Files, s: set<string>) returns (p: string)
    requires s != {} && !Stuck(files, s) && forall p :: p in s ==> Untraced(files, p)
    ensures p in s && forall q :: q in s ==> !Edge(files, p, q)
  {
    hide Edge, Untraced;
    p :| p in s && forall q :: q in s ==> !Edge(files, p, q);
  }

  lemma BoundFor(files: Files, paths: set<string>, rank: map<string, nat>) returns (bound: nat)
    requires Ranked(files, paths, rank)
    ensures Bounded(files, paths, rank, bound)
  {
    bound := 0;
    var left := paths;
    while left != {}
      invariant left <= paths
      invariant forall p :: p in paths - left ==> rank[p] < bound
      decreases left
    {
      var p :| p in left;
      bound := if rank[p] < bound then bound else rank[p] + 1;
      left := left - {p};
    }
  }

  lemma RankAll(files: Files, paths: set<string>) returns (rank: map<string, nat>)
    requires forall path, registry :: path in paths ==> Enough(files, path, registry)
    ensures Ranked(files, paths, rank)
  {
    hide Edge, Enough, Stuck;
    var s := set p | p in paths && Untraced(files, p);
    forall u | u <= s
      ensures !Stuck(files, u)
    {
      NotStuck(files, paths, u);
    }
    var r := Peel(files, s);
    rank := map p | p in paths :: if p in s then r[p] else 0;
  }

  lemma NotStuck(files: Files, paths: set<string>, u: set<string>)
    requires forall path, registry :: path in paths ==> Enough(files, path, registry)
    requires u <= paths
    ensures !Stuck(files, u)
  {
    hide Enough, Stuck;
    if Stuck(files, u) {
      var p, registry := StuckNeverEnough(files, u);
    }
  }

  /**
   Some number of descriptors is enough for every start and every registry, if and only if the files that are not
   libraries need each other without a cycle. Files may be rejected or fail later.
   */
  lemma EnoughExactlyWhenRanked(files: Files, paths: set<string>)
    requires NamedIn(files, paths)
    ensures (forall path, registry :: path in paths ==> Enough(files, path, registry)) <==>
            exists rank :: Ranked(files, paths, rank)
  {
    hide Ranked, Enough;
    if exists rank :: Ranked(files, paths, rank) {
      var rank :| Ranked(files, paths, rank);
      var bound := BoundFor(files, paths, rank);
      forall path, registry | path in paths
        ensures Enough(files, path, registry)
      {
        RankedEnough(files, paths, rank, bound, path, registry);
      }
    }
    if forall path, registry :: path in paths ==> Enough(files, path, registry) {
      var rank := RankAll(files, paths);
    }
  }

  /** An executable that names itself as a dependency takes all descriptors there are, and returns 0. */
  lemma {:induction false} SelfNeedingTakesAll(free: nat)
    ensures var files: Files := map["0:/a" := Image(0, Other, ["a"], 0)];
            Load(files, free, "0:/a", []) == Loaded(0, [], 0)
  {
    var files: Files := map["0:/a" := Image(0, Other, ["a"], 0)];
    hide BaseName, LoadNeeded;
    if free > 0 {
      SelfNeedingTakesAll(free - 1);
      OneNeeded(files, free - 1, "a");
      assert LibraryPath("a") == "0:/a" && Registering(files["0:/a"], "0:/a", []) == [];
    }
  }

  // ----- what is needed opens to libraries or not at all

  /** No needed name opens to a file that is not a library. */
  ghost predicate NoneToOthers(files: Files, paths: set<string>) {
    forall p, n :: p in paths && p in files && n in files[p].needed && LibraryPath(BaseName(n)) in files ==>
      files[LibraryPath(BaseName(n))].kind == Library
  }

  ghost predicate NeedsToNoOthers(files: Files, needed: seq<string>) {
    forall n :: n in needed && LibraryPath(BaseName(n)) in files ==> files[LibraryPath(BaseName(n))].kind == Library
  }

  /** A load by name opens no more files than it registers, and one more if it fails. */
  ghost predicate OpensFew(files: Files, paths: set<string>, free: nat, registry: seq<string>, r: LoadResult) {
    free - r.free + |Unregistered(files, paths, r.registry)| <=
    |Unregistered(files, paths, registry)| + if r.res < 0 then 1 else 0
  }

  lemma {:induction false} LoadOpensFew(files: Files, paths: set<string>, free: nat, n: string, registry: seq<string>)
    requires NamedIn(files, paths) && NoneToOthers(files, paths) && NeedsIn([n], paths) && NeedsToNoOthers(files, [n])
    requires BaseName(n) !in registry
    ensures OpensFew(files, paths, free, registry, Load(files, free, LibraryPath(BaseName(n)), registry))
    decreases free, 0
  {
    hide BaseName, Pieces, Unregistered, LoadNeeded;
    assert n in [n] && Nameable(n);
    var path := LibraryPath(BaseName(n));
    if path in files && free > 0 && files[path].checked >= 0 {
      OpenedByName(files, paths, n, registry);
      RegisteringShrinks(files, paths, path, registry);
      NeedsOpenFew(files, paths, free - 1, files[path].needed, registry + [BaseName(path)]);
    }
  }

  lemma {:induction false} NeedsOpenFew(files: Files, paths: set<string>, free: nat, needed: seq<string>,
                                        registry: seq<string>)
    requires NamedIn(files, paths) && NoneToOthers(files, paths) && NeedsIn(needed, paths)
    requires NeedsToNoOthers(files, needed)
    ensures OpensFew(files, paths, free, registry, LoadNeeded(files, free, needed, registry))
    decreases free, |needed| + 1
  {
    hide BaseName, Pieces, Unregistered, Load, NamedIn, NoneToOthers, Nameable;
    if needed != [] {
      var n := needed[0];
      assert n in needed;
      if BaseName(n) in registry {
        NeedsOpenFew(files, paths, free, needed[1..], registry);
      } else {
        LoadOpensFew(files, paths, free, n, registry);
        var r := Load(files, free, LibraryPath(BaseName(n)), registry);
        if r.res >= 0 { NeedsOpenFew(files, paths, r.free, needed[1..], r.registry); }
      }
    }
  }

  /**
   A file that cannot be opened does not make a load fail. With two more descriptors free than there are libraries
   still to be registered, a result of 0 or more means that all needed names are registered if and only if each of
   them was registered before or opens to a library.
   */
  lemma SuccessMeansRegistered(files: Files, paths: set<string>, free: nat, path: string, registry: seq<string>)
    requires NamedIn(files, paths) && NoneToOthers(files, paths) && path in paths && path in files
    requires free >= |Unregistered(files, paths, registry)| + 2
    requires Load(files, free, path, registry).res >= 0
    ensures (forall n :: n in files[path].needed ==> BaseName(n) in Load(files, free, path, registry).registry) <==>
            AllOpen(files, path, registry)
  {
    hide BaseName, Pieces, Unregistered, LoadNeeded, Nameable, AllOpen;
    var image := files[path];
    if image.checked >= 0 {
      FewerUnregistered(files, paths, registry, Registering(image, path, registry));
      NeedsOpenFew(files, paths, free - 1, image.needed, Registering(image, path, registry));
    }
    SpareMeansRegistered(files, paths, free, path, registry);
  }

  // ----- the closure

  /** The closure that loading is measured against exists, for every disk and every registry. */
  lemma ClosureExists(files: Files, path: string, registry: seq<string>) returns (t: set<string>)
    requires path in files
    ensures Closure(files, path, registry, t)
  {
    hide BaseName, Needs;
    var known, base := Elements(registry), Names(files[path].needed);
    var all := known + base + set p, m | p in files && m in Names(files[p].needed) :: m;
    t := known + base;
    while exists m :: m in t && m !in known && !(Needs(files, m) <= t)
      invariant known + base <= t <= all
      invariant forall u :: known + base <= u && Closed(files, known, u) ==> t <= u
      decreases |all| - |t|
    {
      var m :| m in t && m !in known && !(Needs(files, m) <= t);
      NeedsAreNames(files, m, all);
      MoreElements(t, Needs(files, m), all);
      t := t + Needs(files, m);
    }
  }

  lemma NeedsAreNames(files: Files, m: string, all: set<string>)
    requires forall p :: p in files ==> Names(files[p].needed) <= all
    ensures Needs(files, m) <= all
  {}

  lemma MoreElements(t: set<string>, more: set<string>, all: set<string>)
    requires t <= all && more <= all && !(more <= t)
    ensures t + more <= all && |t| < |t + more| <= |all|
  {
    var m :| m in more && m !in t;
    SubsetSize(t + {m}, t + more);
    SubsetSize(t + more, all);
  }
}
