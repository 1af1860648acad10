/**
 strtok and basename (src/string/string.c:119-201). strtok keeps its position in a global between calls:
 here the Tokenizer, whose buffer is null when that pointer is.
 */
module Strtok {
  import opened Kernel
  import opened Strings

  /** The inner loops of strtok: the index of c in the delimiters, or their number if it is none. */
  method FindDelimiter(c: char, delimiters: string) returns (i: nat)
    ensures i <= |delimiters|
    ensures i < |delimiters| <==> IsDelim(c, delimiters)
  {
    i := 0;
    while i < |delimiters|
      invariant 0 <= i <= |delimiters|
      invariant forall j :: 0 <= j < i ==> delimiters[j] != c
    {
      if c == delimiters[i] {
        return;
      }
      i := i + 1;
    }
  }

  /** The global sp: a buffer and an index into it, or null. */
  class Tokenizer {
    var buf: array?<char>
    var sp: nat

    constructor ()
      ensures buf == null
    {
      buf, sp := null, 0;
    }

    /** If the position is set, a NUL-terminated text starts there. */
    ghost predicate Ready()
      reads this, buf
    {
      buf != null ==> Terminated(buf[..], sp)
    }

    /** The first loop of strtok: where the next piece starts. */
    method SkipDelimiters(delimiters: string) returns (pStart: nat)
      requires buf != null && Ready() && NUL !in delimiters
      ensures pStart == sp + NextStart(Text(buf[..], sp), delimiters, 0)
    {
      hide IsDelim, Text, End;
      ghost var s, text := buf[..], Text(buf[..], sp);
      pStart := sp;
      while true
        invariant sp <= pStart <= sp + |text|
        invariant NextStart(text, delimiters, pStart - sp) == NextStart(text, delimiters, 0)
        decreases sp + |text| - pStart
      {
        AtText(s, sp, text, pStart - sp, delimiters);
        var i := FindDelimiter(buf[pStart], delimiters);
        if i == |delimiters| {
          return;
        }
        pStart := pStart + 1;
      }
    }

    /**
     strtok, once the position is known: the first piece of the text there. Its end is overwritten with
     NUL, and the position moves behind it; with no piece left the position becomes null.
     */
    method Next(delimiters: string) returns (r: Option<nat>)
      requires buf != null && Ready() && NUL !in delimiters
      modifies this, buf
      ensures var s, p, text := old(buf[..]), old(sp), old(Text(buf[..], sp));
              var a := NextStart(text, delimiters, 0);
              if a == |text| then r == None && buf == null && old(buf)[..] == s
              else
                var b := NextEnd(text, delimiters, a);
                && r == Some(p + a) && buf == old(buf)
                && sp == (if b < |text| then p + b + 1 else p + b)
                && buf[..] == s[p + b := NUL]
    {
      hide IsDelim, Text, End, NextStart;
      ghost var s, p, text := buf[..], sp, Text(buf[..], sp);
      ghost var a := NextStart(text, delimiters, 0);
      TextAt(s, p);
      var pStart := SkipDelimiters(delimiters);
      sp := pStart;
      AtText(s, p, text, a, delimiters);
      if buf[sp] == NUL {
        buf := null;
        return None;
      }
      r := Some(pStart);
      ghost var b, full := NextEnd(text, delimiters, a), buf;
      while buf[sp] != NUL
        invariant buf == full && p <= sp <= p + |text| && buf[..] == s
        invariant NextEnd(text, delimiters, sp - p) == b && sp - p <= b
        decreases p + |text| - sp
      {
        AtText(s, p, text, sp - p, delimiters);
        var i := FindDelimiter(buf[sp], delimiters);
        if i < |delimiters| {
          buf[sp] := NUL;
          sp := sp + 1;
          return;
        }
        sp := sp + 1;
      }
      AtText(s, p, text, sp - p, delimiters);
    }
  }

  lemma AtText(s: seq<char>, p: nat, text: string, i: nat, delimiters: string)
    requires Terminated(s, p) && text == Text(s, p) && i <= |text| && NUL !in delimiters
    ensures s[p + i] == NUL <==> i == |text|
    ensures i < |text| ==> s[p + i] == text[i]
    ensures i == |text| ==> !IsDelim(s[p + i], delimiters)
  {
    TextAt(s, p);
  }

  /** strtok: with a null position it starts at str, otherwise str is ignored and the old text goes on. */
  method Strtok(tok: Tokenizer, str: array?<char>, delimiters: string) returns (r: Option<nat>)
    requires tok.Ready() && NUL !in delimiters
    requires tok.buf == null && str != null ==> Terminated(str[..], 0)
    modifies tok, tok.buf, str
    ensures old(tok.buf) == null && str == null ==> r == None && tok.buf == null
    ensures !(old(tok.buf) == null && str == null) ==>
              var b := if old(tok.buf) == null then str else old(tok.buf);
              var p := if old(tok.buf) == null then 0 else old(tok.sp);
              TokenTaken(old(b[..]), p, delimiters, b[..], tok.buf == b, tok.sp, r)
              && (tok.buf == null || tok.buf == b)
  {
    hide Text, IsDelim;
    if str == null && tok.buf == null {
      return None;
    }
    if str != null && tok.buf == null {
      tok.buf, tok.sp := str, 0;
    }
    r := tok.Next(delimiters);
  }

  /**
   From buffer s and position p one strtok call has led to buffer u and position sp (set or null): it has
   returned the first piece, as a C string of its own, and left the text after it.
   */
  ghost predicate TokenTaken(s: seq<char>, p: nat, d: string, u: seq<char>, more: bool, sp: nat, r: Option<nat>)
    requires Terminated(s, p)
  {
    var text := Text(s, p);
    var a := NextStart(text, d, 0);
    if a == |text| then r == None && !more && u == s
    else
      var b := NextEnd(text, d, a);
      && r == Some(p + a) && more && u == s[p + b := NUL]
      && sp == (if b < |text| then p + b + 1 else p + b)
  }

  lemma TakenToken(s: seq<char>, p: nat, d: string, u: seq<char>, more: bool, sp: nat, r: Option<nat>)
    requires Terminated(s, p) && TokenTaken(s, p, d, u, more, sp, r) && r.Some?
    ensures Pieces(Text(s, p), d) != []
    ensures r.value >= p && Terminated(u, r.value) && Text(u, r.value) == Pieces(Text(s, p), d)[0]
    ensures Terminated(u, sp) && Pieces(Text(u, sp), d) == Pieces(Text(s, p), d)[1..]
    ensures |u| == |s| && r.value + |Text(u, r.value)| <= sp
  {
    hide IsDelim, NextStart, NextEnd, Pieces, Text, End;
    var text := Text(s, p);
    var a := NextStart(text, d, 0);
    var b := NextEnd(text, d, a);
    PiecesUnfold(text, d);
    TextAt(s, p);
    SliceOfText(s, p, u, text, a, b);
    TextIs(u, p + a, p + b);
    TextIs(u, sp, p + |text|);
  }

  lemma SliceOfText(s: seq<char>, p: nat, u: seq<char>, text: string, a: nat, b: nat)
    requires a <= b <= |text| && p + |text| <= |s| && u == if p + b < |s| then s[p + b := NUL] else s
    requires forall k :: 0 <= k < |text| ==> text[k] == s[p + k]
    ensures u[p + a..p + b] == text[a..b]
    ensures u[(if b < |text| then p + b + 1 else p + b)..p + |text|] == After(text, b)
    ensures forall k :: p + a <= k < p + b || p + b < k < p + |text| ==> u[k] == text[k - p]
  {}

  /** The last component of a path. */
  function Last(pieces: seq<string>): string
    requires pieces != []
  {
    pieces[|pieces| - 1]
  }

  /** taken pieces are behind us, the current one is a C string of its own, the rest starts at sp. */
  ghost predicate Progress(s: seq<char>, sp: nat, current: nat, d: string, pieces: seq<string>, taken: nat) {
    && 1 <= taken <= |pieces|
    && Terminated(s, current) && Text(s, current) == pieces[taken - 1]
    && Terminated(s, sp) && Pieces(Text(s, sp), d) == pieces[taken..]
  }

  lemma ProgressStep(s: seq<char>, p: nat, current: nat, d: string, pieces: seq<string>, taken: nat,
                     u: seq<char>, more: bool, sp: nat, r: Option<nat>)
    requires Progress(s, p, current, d, pieces, taken) && TokenTaken(s, p, d, u, more, sp, r)
    ensures r.Some? ==> more && Progress(u, sp, r.value, d, pieces, taken + 1)
    ensures r.None? ==> !more && u == s && taken == |pieces|
  {
    hide NextStart, NextEnd, IsDelim, Pieces, Text, Terminated;
    PiecesUnfold(Text(s, p), d);
    if r.Some? {
      TakenToken(s, p, d, u, more, sp, r);
      assert pieces[taken..][0] == pieces[taken] && pieces[taken..][1..] == pieces[taken + 1..];
    }
  }

  lemma ProgressStart(s: seq<char>, d: string, u: seq<char>, more: bool, sp: nat, r: Option<nat>)
    requires Terminated(s, 0) && TokenTaken(s, 0, d, u, more, sp, r) && Pieces(Text(s, 0), d) != []
    ensures r.Some? && more && Progress(u, sp, r.value, d, Pieces(Text(s, 0), d), 1)
  {
    hide NextStart, NextEnd, IsDelim, Pieces, Text, Terminated;
    PiecesUnfold(Text(s, 0), d);
    TakenToken(s, 0, d, u, more, sp, r);
  }

  /**
   basename, from a cleared tokenizer, for a name shorter than the buffers that has a non-empty
   component: the last component, the name itself undamaged and the tokenizer cleared again. Without
   such a component the source copies from a null pointer.
   */
  method Basename(tok: Tokenizer, filename: array<char>, out: array<char>, maxLen: nat)
    requires tok.buf == null && filename != out && out.Length >= maxLen
    requires Terminated(filename[..], 0) && |Text(filename[..], 0)| < maxLen
    requires Pieces(Text(filename[..], 0), "/") != []
    modifies tok, out
    ensures tok.buf == null && filename[..] == old(filename[..])
    ensures Terminated(out[..], 0) && Text(out[..], 0) == Last(Pieces(Text(filename[..], 0), "/"))
  {
    hide Text, End, Pieces, IsDelim, TokenTaken, Terminated, Progress;
    var d := "/";
    ghost var name := Text(filename[..], 0);
    ghost var pieces := Pieces(name, d);
    var buf := new char[maxLen];
    Strncpy(buf, 0, filename, 0, maxLen);
    CopiedText(buf[..], 0, name);
    ghost var before := buf[..];
    var current := Strtok(tok, buf, d);
    ProgressStart(before, d, buf[..], tok.buf == buf, tok.sp, current);
    var last := current;
    ghost var taken := 1;
    while current.Some?
      invariant filename[..] == old(filename[..])
      invariant if current.Some? then tok.buf == buf && Progress(buf[..], tok.sp, current.value, d, pieces, taken)
                else tok.buf == null && last.Some? && Terminated(buf[..], last.value)
                     && Text(buf[..], last.value) == Last(pieces)
      decreases |pieces| - taken, current.Some?
    {
      last := current;
      InProgress(buf[..], tok.sp, last.value, d, pieces, taken);
      current := NextPiece(tok, buf, d, last.value, pieces, taken);
      if current.Some? {
        InProgress(buf[..], tok.sp, current.value, d, pieces, taken + 1);
        taken := taken + 1;
      }
    }
    ghost var piece := Text(buf[..], last.value);
    Strncpy(out, 0, buf, last.value, maxLen);
    CopiedText(out[..], 0, piece);
  }

  /** A further call of strtok on the same text: the next piece, or null with the buffer as it was after the last. */
  method NextPiece(tok: Tokenizer, buf: array<char>, d: string, ghost last: nat, ghost pieces: seq<string>,
                   ghost taken: nat) returns (current: Option<nat>)
    requires tok.buf == buf && NUL !in d && Progress(buf[..], tok.sp, last, d, pieces, taken)
    modifies tok, buf
    ensures current.Some? ==> tok.buf == buf && Progress(buf[..], tok.sp, current.value, d, pieces, taken + 1)
    ensures current.None? ==> tok.buf == null && buf[..] == old(buf[..]) && taken == |pieces|
  {
    hide Text, Pieces, TokenTaken, Terminated, Progress;
    ghost var before, p := buf[..], tok.sp;
    InProgress(before, p, last, d, pieces, taken);
    current := Strtok(tok, buf, d);
    ProgressStep(before, p, last, d, pieces, taken, buf[..], tok.buf == buf, tok.sp, current);
  }

  lemma InProgress(s: seq<char>, sp: nat, current: nat, d: string, pieces: seq<string>, taken: nat)
    requires Progress(s, sp, current, d, pieces, taken)
    ensures 1 <= taken <= |pieces| && Terminated(s, current) && Terminated(s, sp)
    ensures Text(s, current) == pieces[taken - 1]
  {}

  lemma CopiedText(s: seq<char>, at: nat, text: string)
    requires at + |text| < |s| && NUL !in text && s[at..at + |text| + 1] == text + [NUL]
    ensures Terminated(s, at) && Text(s, at) == text
  {
    assert forall k :: at <= k < at + |text| ==> s[k] == s[at..at + |text| + 1][k - at];
    assert s[at + |text|] == s[at..at + |text| + 1][|text|];
    TextIs(s, at, at + |text|);
  }
}
