/**
 The string routines the kernel builds on (src/string/string.c): strncpy, strncmp, strtok with the
 position it keeps between calls, and basename.
 */
module Strings {
  import opened Kernel

  const NUL: char := 0 as char

  // ----- C strings in buffers

  ghost predicate Terminated(s: seq<char>, p: nat) {
    exists e: nat :: p <= e < |s| && s[e] == NUL
  }

  /** The index of the first NUL at or after p. */
  ghost function End(s: seq<char>, p: nat): (e: nat)
    requires Terminated(s, p)
    ensures p <= e < |s| && s[e] == NUL
    ensures forall k :: p <= k < e ==> s[k] != NUL
    decreases |s| - p
  {
    if s[p] == NUL then p else End(s, p + 1)
  }

  /** The C string that starts at p. */
  ghost function Text(s: seq<char>, p: nat): (t: string)
    requires Terminated(s, p)
    ensures NUL !in t && p + |t| < |s| && s[p + |t|] == NUL
  {
    s[p..End(s, p)]
  }

  /** A NUL-free stretch followed by a NUL is the text at its start. */
  lemma TextIs(s: seq<char>, p: nat, e: nat)
    requires p <= e < |s| && s[e] == NUL && forall k :: p <= k < e ==> s[k] != NUL
    ensures Terminated(s, p) && Text(s, p) == s[p..e]
  {
    assert Terminated(s, p);
    assert End(s, p) == e;
  }

  /** What strncpy writes for a source text: at most n characters, and a NUL if there is room. */
  function Copied(text: string, n: nat): (r: seq<char>)
    ensures |r| <= n
  {
    if |text| < n then text + [NUL] else text[..n]
  }

  /** Buffer b with c written at index at. */
  ghost function Written(b: seq<char>, at: nat, c: seq<char>): (r: seq<char>)
    requires at + |c| <= |b|
    ensures |r| == |b| && forall k :: 0 <= k < |b| ==> r[k] == if at <= k < at + |c| then c[k - at] else b[k]
  {
    b[..at] + c + b[at + |c|..]
  }

  lemma WrittenStep(b: seq<char>, at: nat, c: seq<char>, x: char)
    requires at + |c| < |b|
    ensures Written(b, at, c)[at + |c| := x] == Written(b, at, c + [x])
  {}

  /** strncpy between buffers. */
  method Strncpy(dest: array<char>, at: nat, src: array<char>, from: nat, n: nat)
    requires Terminated(src[..], from) && dest != src
    requires at + |Copied(Text(src[..], from), n)| <= dest.Length
    modifies dest
    ensures dest[..] == Written(old(dest[..]), at, Copied(Text(src[..], from), n))
  {
    hide Text, Written, End, Copied;
    CopiedIs(Text(src[..], from), n);
    ghost var s, text, before := src[..], Text(src[..], from), dest[..];
    TextAt(s, from);
    var i := 0;
    assert text[..0] == [];
    while i < n && src[from + i] != NUL
      invariant 0 <= i <= n && i <= |text| && src[..] == s
      invariant dest[..] == Written(before, at, text[..i])
    {
      AtEnd(s, from, text, i);
      WrittenStep(before, at, text[..i], text[i]);
      dest[at + i] := src[from + i];
      assert text[..i] + [text[i]] == text[..i + 1];
      i := i + 1;
    }
    AtEnd(s, from, text, i);
    if i < n {
      assert text[..i] == text;
      WrittenStep(before, at, text, NUL);
      dest[at + i] := NUL;
    }
  }

  /** strncpy writes the text and its NUL, or n characters of it; n == |text| leaves no room for the NUL. */
  lemma CopiedIs(text: string, n: nat)
    ensures Copied(text, n) == if |text| < n then text + [NUL] else text[..n]
  {}

  lemma AtEnd(s: seq<char>, p: nat, text: string, i: nat)
    requires Terminated(s, p) && text == Text(s, p) && i <= |text|
    ensures if i < |text| then s[p + i] == text[i] != NUL else s[p + i] == NUL
  {}

  lemma TextAt(s: seq<char>, p: nat)
    requires Terminated(s, p)
    ensures var t := Text(s, p); forall k :: 0 <= k < |t| ==> t[k] == s[p + k] && t[k] != NUL
  {
    assert forall k :: 0 <= k < |Text(s, p)| ==> Text(s, p)[k] == s[p + k];
  }

  // ----- pieces of a text

  predicate IsDelim(c: char, delimiters: string) {
    c in delimiters
  }

  /** The first index from i on whose character is no delimiter. */
  function NextStart(s: string, d: string, i: nat): (a: nat)
    requires i <= |s|
    ensures i <= a <= |s|
    decreases |s| - i
  {
    if i < |s| && IsDelim(s[i], d) then NextStart(s, d, i + 1) else i
  }

  /** The first index from i on whose character is a delimiter. */
  function NextEnd(s: string, d: string, i: nat): (b: nat)
    requires i <= |s|
    ensures i <= b <= |s| && (i < |s| && !IsDelim(s[i], d) ==> i < b)
    decreases |s| - i
  {
    if i < |s| && !IsDelim(s[i], d) then NextEnd(s, d, i + 1) else i
  }

  lemma {:induction false} StartIs(s: string, d: string, i: nat, k: int)
    requires i <= |s|
    ensures NextStart(s, d, i) < |s| ==> !IsDelim(s[NextStart(s, d, i)], d)
    ensures i <= k < NextStart(s, d, i) ==> IsDelim(s[k], d)
    decreases |s| - i
  {
    hide IsDelim;
    if i < |s| && IsDelim(s[i], d) { StartIs(s, d, i + 1, k); }
  }

  lemma {:induction false} EndIs(s: string, d: string, i: nat, k: int)
    requires i <= |s|
    ensures NextEnd(s, d, i) < |s| ==> IsDelim(s[NextEnd(s, d, i)], d)
    ensures i <= k < NextEnd(s, d, i) ==> !IsDelim(s[k], d)
    decreases |s| - i
  {
    hide IsDelim;
    if i < |s| && !IsDelim(s[i], d) { EndIs(s, d, i + 1, k); }
  }

  /** The text left for the next strtok call once the first piece, ending at b, has been taken. */
  function After(s: string, b: nat): string
    requires b <= |s|
  {
    if b < |s| then s[b + 1..] else []
  }

  /** The pieces repeated strtok calls give, in order. */
  function Pieces(s: string, d: string): seq<string>
    decreases |s|
  {
    var a := NextStart(s, d, 0);
    if a == |s| then [] else [s[a..NextEnd(s, d, a)]] + Pieces(After(s, NextEnd(s, d, a)), d)
  }

  // Stated on positions: the pieces are the maximal delimiter-free stretches.

  /** s[a..b] is a maximal non-empty stretch without delimiters. */
  ghost predicate Maximal(s: string, d: string, a: nat, b: nat) {
    && a < b <= |s| && (forall k :: a <= k < b ==> !IsDelim(s[k], d))
    && (a == 0 || IsDelim(s[a - 1], d)) && (b == |s| || IsDelim(s[b], d))
  }

  /** Where the maximal stretches from index i on begin and end, from left to right. */
  function Spans(s: string, d: string, i: nat): (r: seq<(nat, nat)>)
    requires i <= |s|
    ensures forall k :: 0 <= k < |r| ==> i <= r[k].0 < r[k].1 <= |s|
    decreases |s| - i
  {
    var a := NextStart(s, d, i);
    StartIs(s, d, i, i);
    if a == |s| then []
    else
      var b := NextEnd(s, d, a);
      [(a, b)] + (if b == |s| then [] else Spans(s, d, b + 1))
  }

  lemma {:induction false} SpansOrdered(s: string, d: string, i: nat, k: nat)
    requires i <= |s| && 0 < k < |Spans(s, d, i)|
    ensures Spans(s, d, i)[k - 1].1 < Spans(s, d, i)[k].0
    decreases k
  {
    hide IsDelim;
    var b := NextEnd(s, d, NextStart(s, d, i));
    if k > 1 { SpansOrdered(s, d, b + 1, k - 1); }
  }

  lemma FirstSpan(s: string, d: string, i: nat)
    requires i <= |s| && (i == 0 || IsDelim(s[i - 1], d)) && NextStart(s, d, i) < |s|
    ensures Maximal(s, d, NextStart(s, d, i), NextEnd(s, d, NextStart(s, d, i)))
  {
    hide IsDelim;
    var a := NextStart(s, d, i);
    StartIs(s, d, i, a - 1);
    forall k | a <= k < NextEnd(s, d, a)
      ensures !IsDelim(s[k], d)
    {
      EndIs(s, d, a, k);
    }
    EndIs(s, d, a, a);
  }

  lemma MaximalAt(s: string, d: string, a: nat, b: nat, k: int)
    requires Maximal(s, d, a, b) && a <= k < b
    ensures !IsDelim(s[k], d)
  {}

  lemma MaximalFrom(s: string, d: string, i: nat, a: nat, b: nat)
    requires i <= a && Maximal(s, d, a, b)
    ensures var a0 := NextStart(s, d, i);
            a0 <= a && var b0 := NextEnd(s, d, a0); (a == a0 && b == b0) || (b0 < |s| && b0 < a)
  {
    hide IsDelim;
    var a0 := NextStart(s, d, i);
    StartIs(s, d, i, a);
    assert !IsDelim(s[a], d);
    var b0 := NextEnd(s, d, a0);
    EndIs(s, d, a0, a - 1);
    EndIs(s, d, a0, b);
    if a == a0 {
      if b0 < b { MaximalAt(s, d, a, b, b0); }
    }
  }

  /** The spans are exactly the maximal stretches. */
  lemma {:induction false} SpansAreMaximal(s: string, d: string, i: nat, a: nat, b: nat)
    requires i <= |s| && (i == 0 || IsDelim(s[i - 1], d))
    ensures (a, b) in Spans(s, d, i) <==> i <= a && Maximal(s, d, a, b)
    decreases |s| - i
  {
    hide IsDelim, Maximal, Spans, NextStart, NextEnd;
    SpansUnfold(s, d, i);
    if i <= a && Maximal(s, d, a, b) {
      MaximalFrom(s, d, i, a, b);
      assert a < |s| by { MaximalBounds(s, d, a, b); }
    }
    var a0 := NextStart(s, d, i);
    if a0 < |s| {
      var b0 := NextEnd(s, d, a0);
      FirstSpan(s, d, i);
      EndIs(s, d, a0, a0);
      var rest := if b0 == |s| then [] else Spans(s, d, b0 + 1);
      assert (a, b) in Spans(s, d, i) <==> (a, b) == (a0, b0) || (a, b) in rest;
      if b0 < |s| {
        SpansAreMaximal(s, d, b0 + 1, a, b);
      }
    }
  }

  lemma MaximalBounds(s: string, d: string, a: nat, b: nat)
    requires Maximal(s, d, a, b)
    ensures a < b <= |s|
  {}

  lemma {:induction false} StartShift(s: string, d: string, j: nat, i: nat)
    requires j <= |s| && i <= |s| - j
    ensures NextStart(s[j..], d, i) + j == NextStart(s, d, i + j)
    decreases |s| - i
  {
    hide IsDelim;
    if i < |s| - j && IsDelim(s[i + j], d) { StartShift(s, d, j, i + 1); }
  }

  lemma {:induction false} EndShift(s: string, d: string, j: nat, i: nat)
    requires j <= |s| && i <= |s| - j
    ensures NextEnd(s[j..], d, i) + j == NextEnd(s, d, i + j)
    decreases |s| - i
  {
    hide IsDelim;
    if i < |s| - j && !IsDelim(s[i + j], d) { EndShift(s, d, j, i + 1); }
  }

  /** Taking the first piece off a text leaves a text with the other pieces. */
  lemma PiecesUnfold(t: string, d: string)
    ensures NextStart(t, d, 0) == |t| ==> Pieces(t, d) == []
    ensures NextStart(t, d, 0) < |t| ==>
              var a := NextStart(t, d, 0);
              Pieces(t, d) == [t[a..NextEnd(t, d, a)]] + Pieces(After(t, NextEnd(t, d, a)), d)
  {
    hide NextStart, NextEnd, After;
  }

  lemma SpansUnfold(s: string, d: string, i: nat)
    requires i <= |s|
    ensures NextStart(s, d, i) == |s| ==> Spans(s, d, i) == []
    ensures NextStart(s, d, i) < |s| ==>
              var a := NextStart(s, d, i);
              var b := NextEnd(s, d, a);
              Spans(s, d, i) == [(a, b)] + if b == |s| then [] else Spans(s, d, b + 1)
  {
    hide NextStart, NextEnd;
  }

  lemma SliceOfSuffix(s: string, i: nat, a: nat, b: nat)
    requires i <= |s| && a <= b <= |s| - i
    ensures s[i..][a..b] == s[i + a..i + b] && After(s[i..], b) == After(s, i + b)
  {}

  lemma FirstPiece(s: string, d: string, i: nat, a: nat, b: nat)
    requires i <= |s| && a == NextStart(s, d, i) && b == NextEnd(s, d, a)
    ensures a == |s| ==> Pieces(s[i..], d) == []
    ensures a < |s| ==> Pieces(s[i..], d) == [s[a..b]] + Pieces(After(s, b), d)
  {
    hide IsDelim, NextStart, NextEnd, Pieces, After;
    PiecesUnfold(s[i..], d);
    StartShift(s, d, i, 0);
    if a < |s| {
      EndShift(s, d, i, a - i);
      SliceOfSuffix(s, i, a - i, b - i);
    }
  }

  /** The pieces of a text are its maximal stretches, each once and from left to right. */
  lemma {:induction false} PiecesAreSpans(s: string, d: string, i: nat)
    requires i <= |s|
    ensures |Pieces(s[i..], d)| == |Spans(s, d, i)|
    ensures forall k :: 0 <= k < |Spans(s, d, i)| ==>
              Pieces(s[i..], d)[k] == s[Spans(s, d, i)[k].0..Spans(s, d, i)[k].1]
    decreases |s| - i
  {
    hide IsDelim, NextStart, NextEnd, Pieces, Spans;
    var a := NextStart(s, d, i);
    FirstPiece(s, d, i, a, NextEnd(s, d, a));
    SpansUnfold(s, d, i);
    if a < |s| {
      var b := NextEnd(s, d, a);
      if b < |s| {
        PiecesAreSpans(s, d, b + 1);
      } else {
        NoPieces(d);
      }
    }
  }

  lemma NoPieces(d: string)
    ensures Pieces("", d) == []
  {}
}
