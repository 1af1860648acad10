/**
 The keyboard buffer of a process (keyboard_push and keyboard_pop, src/keyboard/keyboard.c:111-161): 1024
 characters and two counters that only ever go up, round at 2^32. A zero marks an empty place.

 It is a queue as long as nothing but non-zero characters is pushed and at most 1024 are waiting.
 */
module Keyboard {
  import opened Kernel
  import opened Bits
  import Strings

  const SIZE := 1024

  const NUL := Strings.NUL

  type Buffer = b: seq<char> | |b| == 1024 witness seq(1024, _ => NUL)

  /** struct keyboard_buffer */
  datatype State = State(buffer: Buffer, head: Word, tail: Word)

  function Next(w: Word): Word {
    (w + 1) % WORD
  }

  /** The place of the k-th character from a counter on. */
  function Place(head: Word, k: nat): (r: nat)
    ensures r < SIZE
  {
    (head + k) % 1024
  }

  /** The ring holds the queue q: its characters from head on, zeros everywhere else. */
  ghost predicate Holds(s: State, q: string) {
    && |q| <= SIZE && s.tail == (s.head + |q|) % WORD && NUL !in q
    && forall k: nat :: k < SIZE ==> s.buffer[Place(s.head, k)] == if k < |q| then q[k] else NUL
  }

  /** The counters wrap together with the places, since 1024 divides 2^32. */
  lemma PlaceWraps(head: Word, n: nat)
    ensures (head + n) % WORD % 1024 == Place(head, n)
  {
    var w := (head + n) / WORD;
    assert head + n == WORD * w + (head + n) % WORD;
    assert WORD * w == 1024 * (0x40_0000 * w);
    SameRemainder((head + n) % WORD, 0x40_0000 * w);
  }

  lemma SameRemainder(a: nat, m: nat)
    ensures (1024 * m + a) % 1024 == a % 1024
  {
    assert 1024 * m + a == 1024 * (m + a / 1024) + a % 1024;
  }

  lemma PlacesDiffer(head: Word, j: nat, k: nat)
    requires j < SIZE && k < SIZE && j != k
    ensures Place(head, j) != Place(head, k)
  {}

  lemma NextPlace(head: Word, k: nat)
    ensures Place(Next(head), k) == Place(head, k + 1)
  {
    PlaceWraps(head, 1);
    PlaceOfPlace(Next(head), k, head + 1);
  }

  lemma PlaceOfPlace(a: nat, k: nat, b: nat)
    requires a % 1024 == b % 1024
    ensures (a + k) % 1024 == (b + k) % 1024
  {
    SameRemainder(a % 1024 + k, a / 1024);
    SameRemainder(b % 1024 + k, b / 1024);
  }

  /** A ring holds one queue. */
  lemma HoldsOne(s: State, p: string, q: string)
    requires Holds(s, p) && Holds(s, q)
    ensures p == q
  {
    hide Place;
    HoldsNoLonger(s, p, q);
    HoldsNoLonger(s, q, p);
    assert forall k: nat :: k < |p| ==> p[k] == s.buffer[Place(s.head, k)];
  }

  lemma HoldsNoLonger(s: State, p: string, q: string)
    requires Holds(s, p) && Holds(s, q)
    ensures |q| <= |p|
  {
    hide Place;
    assert forall k: nat :: |p| <= k < SIZE ==> s.buffer[Place(s.head, k)] == NUL;
    assert forall k: nat :: k < |q| ==> s.buffer[Place(s.head, k)] != NUL;
  }

  // ----- one operation

  function Push(s: State, c: char): State {
    State(s.buffer[s.tail % 1024 := c], s.head, Next(s.tail))
  }

  function Pop(s: State): (r: (State, char)) {
    var c := s.buffer[s.head % 1024];
    if c == NUL then (s, NUL) else (State(s.buffer[s.head % 1024 := NUL], Next(s.head), s.tail), c)
  }

  lemma PushAppends(s: State, q: string, c: char)
    requires Holds(s, q) && c != NUL && |q| < SIZE
    ensures Holds(Push(s, c), q + [c])
  {
    hide Place;
    PlaceWraps(s.head, |q|);
    PushedTail(s, |q|);
    forall k: nat | k < SIZE
      ensures Push(s, c).buffer[Place(s.head, k)] == if k < |q| + 1 then (q + [c])[k] else NUL
    {
      if k != |q| { PlacesDiffer(s.head, k, |q|); }
    }
  }

  lemma PushedTail(s: State, n: nat)
    requires s.tail == (s.head + n) % WORD
    ensures Next(s.tail) == (s.head + (n + 1)) % WORD
  {
    var m := (s.head + n) / WORD;
    assert s.head + n == WORD * m + s.tail;
  }

  lemma OneLonger(head: Word, n: nat, m: nat)
    requires n <= SIZE && m <= SIZE && (head + (n + 1)) % WORD == (head + m) % WORD
    ensures m == n + 1
  {}

  lemma PushNeedsRoom(s: State, q: string, c: char, p: string)
    requires Holds(s, q) && Holds(Push(s, c), p)
    ensures c != NUL && |q| < SIZE
  {
    hide Place;
    PushedTail(s, |q|);
    OneLonger(s.head, |q|, |p|);
    PlaceWraps(s.head, |q|);
    assert p[|q|] == Push(s, c).buffer[Place(s.head, |q|)];
  }

  /** After a push the ring holds the longer queue and no other, or, after a zero or into a full ring, none. */
  lemma PushKeepsQueue(s: State, q: string, c: char, p: string)
    requires Holds(s, q)
    ensures Holds(Push(s, c), p) <==> p == q + [c] && c != NUL && |q| < SIZE
  {
    hide Holds, Push;
    if c != NUL && |q| < SIZE { PushAppends(s, q, c); }
    if Holds(Push(s, c), p) {
      PushNeedsRoom(s, q, c, p);
      HoldsOne(Push(s, c), p, q + [c]);
    }
  }

  lemma FirstPlace(head: Word)
    ensures Place(head, 0) == head % 1024
  {}

  lemma PoppedTail(head: Word, n: nat)
    requires 1 <= n <= SIZE
    ensures (Next(head) + (n - 1)) % WORD == (head + n) % WORD
  {}

  lemma {:induction false} PopTakesFirst(s: State, q: string)
    requires Holds(s, q)
    ensures if q == [] then Pop(s) == (s, NUL) else Pop(s).1 == q[0] && Holds(Pop(s).0, q[1..])
  {
    hide Place, Next;
    FirstPlace(s.head);
    if q != [] {
      var t := Pop(s).0;
      PoppedTail(s.head, |q|);
      forall k: nat | k < SIZE
        ensures t.buffer[Place(t.head, k)] == if k < |q| - 1 then q[1..][k] else NUL
      {
        NextPlace(s.head, k);
        if k + 1 < SIZE {
          PlacesDiffer(s.head, k + 1, 0);
          assert s.buffer[Place(s.head, k + 1)] == if k + 1 < |q| then q[k + 1] else NUL;
        } else {
          WrapsRound(s.head);
        }
      }
    }
  }

  lemma WrapsRound(head: Word)
    ensures Place(head, SIZE) == Place(head, 0)
  {}

  // ----- runs

  datatype Op = PushKey(c: char) | PopKey

  function Step(s: State, op: Op): (State, string) {
    match op
    case PushKey(c) => (Push(s, c), [])
    case PopKey => var (t, c) := Pop(s); (t, [c])
  }

  /** The operations of a plain queue; popping the empty one gives a zero. */
  function QueueStep(q: string, op: Op): (string, string) {
    match op
    case PushKey(c) => (q + [c], [])
    case PopKey => if q == [] then (q, [NUL]) else (q[1..], [q[0]])
  }

  function Run(s: State, ops: seq<Op>): (State, string)
    decreases |ops|
  {
    if ops == [] then (s, [])
    else
      var (t, out) := Step(s, ops[0]);
      var (u, rest) := Run(t, ops[1..]);
      (u, out + rest)
  }

  function QueueRun(q: string, ops: seq<Op>): (string, string)
    decreases |ops|
  {
    if ops == [] then (q, [])
    else
      var (t, out) := QueueStep(q, ops[0]);
      var (u, rest) := QueueRun(t, ops[1..]);
      (u, out + rest)
  }

  /** Each character pushed is non-zero and finds room. */
  predicate Fits(q: string, ops: seq<Op>)
    decreases |ops|
  {
    ops == [] ||
    ((ops[0].PushKey? ==> ops[0].c != NUL && |q| < SIZE) && Fits(QueueStep(q, ops[0]).0, ops[1..]))
  }

  /** On every such run the buffer gives out what a queue gives out, wherever the counters stand. */
  lemma {:induction false} RunRefines(s: State, q: string, ops: seq<Op>)
    requires Holds(s, q) && Fits(q, ops)
    ensures Holds(Run(s, ops).0, QueueRun(q, ops).0) && Run(s, ops).1 == QueueRun(q, ops).1
    decreases |ops|
  {
    hide Holds, Push, Pop;
    if ops != [] {
      match ops[0] {
        case PushKey(c) => PushAppends(s, q, c);
        case PopKey => PopTakesFirst(s, q);
      }
      RunRefines(Step(s, ops[0]).0, QueueStep(q, ops[0]).0, ops[1..]);
    }
  }

  /** An empty buffer, its counters anywhere, is a queue for as long as what is pushed fits. */
  lemma EmptyBufferIsQueue(head: Word, ops: seq<Op>)
    requires Fits([], ops)
    ensures Run(State(seq(1024, _ => NUL), head, head), ops).1 == QueueRun([], ops).1
  {
    var s := State(seq(1024, _ => NUL), head, head);
    assert Holds(s, []);
    RunRefines(s, [], ops);
  }

  // ----- the code

  class KeyboardBuffer {
    const buffer: array<char>
    var head: Word
    var tail: Word

    constructor (buffer: array<char>)
      ensures this.buffer == buffer && head == 0 && tail == 0
    {
      this.buffer, head, tail := buffer, 0, 0;
    }

    ghost function Abstract(): State
      requires buffer.Length == 1024
      reads this, buffer
    {
      State(buffer[..], head, tail)
    }

    /** keyboard_get_tail_index */
    method GetTailIndex() returns (i: nat)
      ensures i == tail % 1024
    {
      i := tail % 1024;
    }

    /** keyboard_push */
    method PushChar(c: char, running: bool)
      requires buffer.Length == 1024
      modifies this`tail, buffer
      ensures Abstract() == if running then Push(old(Abstract()), c) else old(Abstract())
    {
      if !running {
        return;
      }
      var realIndex := GetTailIndex();
      buffer[realIndex] := c;
      tail := (tail + 1) % WORD;
    }

    /** keyboard_pop */
    method PopChar(running: bool) returns (c: char)
      requires buffer.Length == 1024
      modifies this`head, buffer
      ensures (Abstract(), c) == if running then Pop(old(Abstract())) else (old(Abstract()), NUL)
    {
      if !running {
        return NUL;
      }
      var realIndex := head % 1024;
      c := buffer[realIndex];
      if c == NUL {
        return NUL;
      }
      buffer[realIndex] := NUL;
      head := (head + 1) % WORD;
    }
  }
}
