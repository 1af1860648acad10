/**
 What pathparser_parse makes of a path (src/fs/pparser.c:21-42, :52-97 and :113-150): a drive digit and
 the components up to the first empty one.
 */
module Paths {
  import opened Kernel
  import opened Strings

  /** The position after the component that ends at e: past one slash, if there is one. */
  function Skip(path: string, e: nat): (i: nat)
    requires e <= |path|
    ensures e <= i <= |path| && (e < |path| ==> i == e + 1)
  {
    if e < |path| then e + 1 else e
  }

  /** The components from i on, up to the first empty one. */
  function Components(path: string, i: nat): seq<string>
    requires i <= |path|
    decreases |path| - i
  {
    var e := NextEnd(path, "/", i);
    if e == i then [] else [path[i..e]] + Components(path, Skip(path, e))
  }

  /**
   The components pathparser_parse makes nodes for: when the first is empty it asks for one more, and
   goes on from there.
   */
  function Allocated(path: string, i: nat): seq<string>
    requires i <= |path|
  {
    if NextEnd(path, "/", i) > i then Components(path, i) else Components(path, Skip(path, i))
  }

  function IsDigit(c: char): bool { '0' <= c <= '9' }

  /** path_valid_format */
  predicate ValidFormat(path: string) {
    |path| >= 3 && IsDigit(path[0]) && path[1] == ':' && path[2] == '/'
  }

  /** Nodes are made that the root never points to: the path has two slashes, then something else. */
  predicate Leaks(path: string)
    requires ValidFormat(path)
  {
    |path| > 4 && path[3] == '/' && path[4] != '/'
  }

  /** Such a path, and the node the root does not lead to. */
  lemma LeakingPath()
    ensures ValidFormat("0://a") && Leaks("0://a")
    ensures Components("0://a", 3) == [] && Allocated("0://a", 3) == ["a"]
  {
    var path := "0://a";
    EmptyPiece(path, 3);
    PieceEnds(path, 4, "a");
    assert path[4..5] == "a" && NextEnd(path, "/", 5) == 5;
    assert Components(path, 5) == [];
  }

  lemma NodesWithoutFirst(path: string)
    requires ValidFormat(path)
    ensures Leaks(path) <==> Components(path, 3) == [] && Allocated(path, 3) != []
    ensures !Leaks(path) ==> Components(path, 3) == Allocated(path, 3)
  {
    hide NextEnd;
    EmptyPiece(path, 3);
    EmptyPiece(path, Skip(path, 3));
  }

  lemma EmptyPiece(path: string, i: nat)
    requires i <= |path|
    ensures NextEnd(path, "/", i) == i <==> i == |path| || path[i] == '/'
  {
    assert i < |path| ==> (IsDelim(path[i], "/") <==> path[i] == '/');
  }

  // ----- printing

  predicate Component(c: string) {
    c != [] && '/' !in c && NUL !in c
  }

  /** The components with a slash between each two, and one at the end if so wanted. */
  function Joined(comps: seq<string>, trailing: bool): string {
    if comps == [] then []
    else if |comps| == 1 then comps[0] + (if trailing then "/" else "")
    else comps[0] + "/" + Joined(comps[1..], trailing)
  }

  /** A path with a drive number and components. */
  function Printed(drive: nat, comps: seq<string>, trailing: bool): string
    requires drive <= 9
  {
    [('0' as int + drive) as char] + ":/" + Joined(comps, trailing)
  }

  /** A slash-free piece ends where the slash behind it is, or at the end. */
  lemma {:induction false} PieceEnds(path: string, i: nat, c: string)
    requires i + |c| <= |path| && path[i..i + |c|] == c && '/' !in c
    requires i + |c| == |path| || path[i + |c|] == '/'
    ensures NextEnd(path, "/", i) == i + |c|
    decreases |c|
  {
    if c == [] {
      EmptyPiece(path, i);
    } else {
      assert path[i] == c[0] && path[i + 1..i + |c|] == c[1..];
      PieceEnds(path, i + 1, c[1..]);
    }
  }

  lemma Layout(path: string, i: nat, c: string, rest: string)
    requires i <= |path| && path[i..] == c + rest
    ensures i + |c| <= |path| && path[i..i + |c|] == c && path[i + |c|..] == rest
    ensures i + |c| < |path| ==> rest != [] && path[i + |c|] == rest[0] && path[i + |c| + 1..] == rest[1..]
  {
    assert |path| == i + |c| + |rest|;
    forall k: nat | k < |rest|
      ensures path[i + |c| + k] == rest[k]
    {
      assert path[i..][|c| + k] == rest[k];
    }
    assert forall k: nat :: k < |c| ==> path[i + k] == path[i..][k];
  }

  lemma {:induction false} ComponentsOfJoined(path: string, i: nat, comps: seq<string>, trailing: bool)
    requires i <= |path| && path[i..] == Joined(comps, trailing)
    requires forall c :: c in comps ==> Component(c)
    ensures Components(path, i) == comps
    decreases |comps|
  {
    hide NextEnd, Joined, Components, Behind;
    if comps == [] {
      JoinedCases([], [], trailing);
      EmptyPiece(path, i);
      NoneAtEnd(path, i);
    } else {
      var c, after := comps[0], comps[1..];
      assert c in comps && Component(c) && comps == [c] + after;
      JoinedCases(c, after, trailing);
      Layout(path, i, c, Behind(after, trailing));
      BehindFirst(after, trailing);
      PieceEnds(path, i, c);
      ComponentsOfJoined(path, Skip(path, i + |c|), after, trailing);
      Unfolded(path, i, i + |c|);
    }
  }

  lemma Unfolded(path: string, i: nat, e: nat)
    requires i < e <= |path| && NextEnd(path, "/", i) == e
    ensures Components(path, i) == [path[i..e]] + Components(path, Skip(path, e))
  {}

  /** What follows a component when rest is still to come. */
  function Behind(rest: seq<string>, trailing: bool): string {
    if rest == [] then (if trailing then "/" else "") else "/" + Joined(rest, trailing)
  }

  lemma BehindFirst(rest: seq<string>, trailing: bool)
    ensures var b := Behind(rest, trailing);
            if b == [] then rest == [] && Joined(rest, trailing) == []
            else b[0] == '/' && b[1..] == Joined(rest, trailing)
  {}

  /** Parsing a printed path gives back its drive and its components, and loses no node. */
  lemma RoundTrip(drive: nat, comps: seq<string>, trailing: bool)
    requires drive <= 9 && forall c :: c in comps ==> Component(c)
    ensures var path := Printed(drive, comps, trailing);
            && ValidFormat(path) && path[0] as int - '0' as int == drive
            && Components(path, 3) == comps && Allocated(path, 3) == comps && !Leaks(path)
  {
    var path := Printed(drive, comps, trailing);
    assert path[3..] == Joined(comps, trailing);
    ComponentsOfJoined(path, 3, comps, trailing);
    if comps != [] { assert path[3] == comps[0][0] != '/'; }
    NodesWithoutFirst(path);
  }

  /** From i on there are no two slashes in a row, and no slash first. */
  predicate SingleSlashes(path: string, i: nat) {
    forall k :: i <= k < |path| && path[k] == '/' ==> k > i && path[k - 1] != '/'
  }

  lemma {:induction false} JoinedOfComponents(path: string, i: nat)
    requires i <= |path| && SingleSlashes(path, i)
    ensures path[i..] == Joined(Components(path, i), |path| > i && path[|path| - 1] == '/')
    decreases |path| - i
  {
    hide NextEnd, IsDelim, Joined, SingleSlashes, Components;
    var e := NextEnd(path, "/", i);
    EmptyPiece(path, i);
    if i == |path| {
      NoneAtEnd(path, i);
      JoinedCases([], [], false);
    } else {
      var trailing := path[|path| - 1] == '/';
      var after := Skip(path, e);
      PieceStops(path, i);
      Unfolded(path, i, e);
      NoneAtEnd(path, after);
      JoinedCases(path[i..e], Components(path, after), trailing);
      if e < |path| {
        JoinedOfComponents(path, after);
        NoSlashFirst(path, after);
        JoinStep(path, i, e, Components(path, after), trailing);
      }
    }
  }

  lemma NoSlashFirst(path: string, i: nat)
    requires SingleSlashes(path, i)
    ensures i < |path| ==> path[i] != '/'
  {}

  lemma JoinStep(path: string, i: nat, e: nat, rest: seq<string>, trailing: bool)
    requires i < e < |path| && path[e] == '/' && (trailing <==> path[|path| - 1] == '/')
    requires rest == [] <==> e + 1 == |path|
    requires path[e + 1..] == Joined(rest, |path| > e + 1 && trailing)
    ensures path[i..] == path[i..e] + Behind(rest, trailing)
  {
    hide Joined;
    assert path[i..] == path[i..e] + ("/" + path[e + 1..]);
  }

  /** Printing what was parsed gives the path back, unless two slashes follow each other. */
  lemma PrintedAgain(path: string)
    requires ValidFormat(path) && SingleSlashes(path, 3)
    ensures path == Printed(path[0] as int - '0' as int, Components(path, 3), |path| > 3 && path[|path| - 1] == '/')
  {
    JoinedOfComponents(path, 3);
    assert path == [path[0]] + ":/" + path[3..];
  }

  lemma PieceStops(path: string, i: nat)
    requires i < |path| && SingleSlashes(path, i)
    ensures var e := NextEnd(path, "/", i);
            i < e <= |path| && path[e - 1] != '/' && (e < |path| ==> path[e] == '/' && SingleSlashes(path, e + 1))
  {
    hide NextEnd;
    var e := NextEnd(path, "/", i);
    EmptyPiece(path, i);
    EndIs(path, "/", i, e - 1);
  }

  lemma JoinedCases(c: string, rest: seq<string>, trailing: bool)
    ensures Joined([], trailing) == []
    ensures Joined([c] + rest, trailing) ==
            c + Behind(rest, trailing)
  {
    assert ([c] + rest)[1..] == rest;
  }

  lemma NoneAtEnd(path: string, i: nat)
    requires i <= |path|
    ensures i == |path| || path[i] == '/' <==> Components(path, i) == []
  {
    EmptyPiece(path, i);
  }

  /** The nodes of a path that is short enough take a bounded number of characters each. */
  lemma {:induction false} ComponentsBound(path: string, i: nat)
    requires i <= |path|
    ensures 2 * |Components(path, i)| <= |path| - i + 1
    decreases |path| - i
  {
    var e := NextEnd(path, "/", i);
    if e > i { ComponentsBound(path, Skip(path, e)); }
  }
}
