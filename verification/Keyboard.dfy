/**
 keyboard.c: the keyboard buffer of a process, a ring of 1024 characters under
 two 32-bit counters that are allowed to wrap.
 */
module Keyboard {
  import opened Bits
  import opened Memory

  const BUFFER_SIZE := 1024

  /** The keyboard fields of struct process. */
  datatype State = State(buffer: seq<Byte>, head: Word, tail: Word)

  function Slot(counter: int): (i: nat)
    ensures i < BUFFER_SIZE
  {
    counter % BUFFER_SIZE
  }

  // ---------------------------------------------------------------------
  // Steps on the ring
  // ---------------------------------------------------------------------

  function Push(s: State, c: Byte): State
    requires |s.buffer| == BUFFER_SIZE
  {
    if c == 0 then s else State(s.buffer[Slot(s.tail) := c], s.head, (s.tail + 1) % WORD_LIMIT)
  }

  function Backspace(s: State): State
    requires |s.buffer| == BUFFER_SIZE
  {
    var tail := (s.tail - 1) % WORD_LIMIT;
    State(s.buffer[Slot(tail) := 0], s.head, tail)
  }

  function Pop(s: State): (State, Byte)
    requires |s.buffer| == BUFFER_SIZE
  {
    var c := s.buffer[Slot(s.head)];
    if c == 0 then (s, 0) else (State(s.buffer[Slot(s.head) := 0], (s.head + 1) % WORD_LIMIT, s.tail), c)
  }

  // ---------------------------------------------------------------------
  // The queue a ring stands for
  // ---------------------------------------------------------------------

  /** Reading the ring once round from head: the queued characters, then zeros. */
  ghost predicate Holds(s: State, q: seq<Byte>) {
    && |s.buffer| == BUFFER_SIZE && |q| <= BUFFER_SIZE && 0 !in q
    && s.tail == (s.head + |q|) % WORD_LIMIT
    && forall i :: 0 <= i < BUFFER_SIZE ==> RingAt(s, i) == if i < |q| then q[i] else 0
  }

  function RingAt(s: State, i: nat): Byte
    requires |s.buffer| == BUFFER_SIZE
  {
    s.buffer[Slot(s.head + i)]
  }

  /** A ring stands for at most one queue. */
  lemma HoldsUnique(s: State, p: seq<Byte>, q: seq<Byte>)
    requires Holds(s, p) && Holds(s, q)
    ensures p == q
  {
    forall i | 0 <= i < |p| && i < |q| ensures p[i] == q[i] {
      assert RingAt(s, i) == p[i];
    }
  }

  lemma SlotTurns(x: int, k: int)
    ensures Slot(x + BUFFER_SIZE * k) == Slot(x)
  {
  }

  /** Wrapping a counter does not move its slot, because the size of the ring divides 2^32. */
  lemma WrapKeepsSlot(x: int)
    ensures Slot(x % WORD_LIMIT) == Slot(x)
  {
    var k, r := x / WORD_LIMIT * 0x40_0000, x % WORD_LIMIT;
    assert x == r + BUFFER_SIZE * k;
    SlotTurns(r, k);
  }

  lemma WrapAdds(x: nat, i: nat)
    ensures Slot(x % WORD_LIMIT + i) == Slot(x + i)
  {
    hide Slot;
    WrapKeepsSlot(x % WORD_LIMIT + i);
    WrapKeepsSlot(x + i);
    WrapAdd(x, i);
  }

  lemma SlotsDiffer(head: nat, i: nat, j: nat)
    requires i < BUFFER_SIZE && j < BUFFER_SIZE
    ensures Slot(head + i) == Slot(head + j) <==> i == j
  {
  }

  lemma PushAppends(s: State, q: seq<Byte>, c: Byte)
    requires Holds(s, q) && c != 0 && |q| < BUFFER_SIZE
    ensures Holds(Push(s, c), q + [c])
  {
    hide Slot;
    var t := Push(s, c);
    WrapKeepsSlot(s.head + |q|);
    assert t.head == s.head && t.buffer == s.buffer[Slot(s.head + |q|) := c];
    forall i | 0 <= i < BUFFER_SIZE ensures RingAt(t, i) == if i < |q| + 1 then (q + [c])[i] else 0 {
      assert RingAt(s, i) == if i < |q| then q[i] else 0;
      SlotsDiffer(s.head, i, |q|);
    }
  }

  lemma PopTakesFirst(s: State, q: seq<Byte>)
    requires Holds(s, q)
    ensures q == [] ==> Pop(s) == (s, 0)
    ensures q != [] ==> Pop(s).1 == q[0] && Holds(Pop(s).0, q[1..])
  {
    hide Slot;
    assert RingAt(s, 0) == if q == [] then 0 else q[0];
    if q != [] {
      var t := Pop(s).0;
      WrapKeepsSlot(s.head + 1);
      forall i | 0 <= i < BUFFER_SIZE ensures RingAt(t, i) == if i < |q| - 1 then q[1..][i] else 0 {
        RingMoves(s, t, i);
        assert i + 1 < BUFFER_SIZE ==> RingAt(s, i + 1) == if i + 1 < |q| then q[i + 1] else 0;
      }
    }
  }

  /** After the head has moved on by one, place i of the ring is the old place i+1. */
  lemma RingMoves(s: State, t: State, i: nat)
    requires |s.buffer| == BUFFER_SIZE && i < BUFFER_SIZE
    requires t.head == (s.head + 1) % WORD_LIMIT && t.buffer == s.buffer[Slot(s.head) := 0]
    ensures RingAt(t, i) == if i + 1 < BUFFER_SIZE then RingAt(s, i + 1) else 0
  {
    hide Slot;
    WrapAdds(s.head + 1, i);
    if i + 1 < BUFFER_SIZE {
      SlotsDiffer(s.head, 0, i + 1);
    } else {
      SlotTurns(s.head, 1);
    }
  }

  lemma BackspaceDropsLast(s: State, q: seq<Byte>)
    requires Holds(s, q) && q != []
    ensures Holds(Backspace(s), q[..|q| - 1])
  {
    hide Slot;
    var t, n := Backspace(s), |q| - 1;
    assert t.tail == (s.head + n) % WORD_LIMIT;
    WrapKeepsSlot(s.head + n);
    forall i | 0 <= i < BUFFER_SIZE ensures RingAt(t, i) == if i < n then q[..n][i] else 0 {
      assert RingAt(s, i) == if i < |q| then q[i] else 0;
      SlotsDiffer(s.head, i, n);
    }
  }

  // ---------------------------------------------------------------------
  // Where the refinement stops
  // ---------------------------------------------------------------------

  /** Pushing onto a full ring leaves something that is no queue at all. */
  lemma PushIff(s: State, q: seq<Byte>, c: Byte)
    requires Holds(s, q)
    ensures (exists p :: Holds(Push(s, c), p)) <==> |q| < BUFFER_SIZE || c == 0
  {
    if c == 0 {
      assert Holds(Push(s, c), q);
    } else if |q| < BUFFER_SIZE {
      PushAppends(s, q, c);
    }
  }

  /** So does a backspace on an empty ring. */
  lemma BackspaceIff(s: State, q: seq<Byte>)
    requires Holds(s, q)
    ensures (exists p :: Holds(Backspace(s), p)) <==> q != []
  {
    if q != [] {
      BackspaceDropsLast(s, q);
    }
  }

  // ---------------------------------------------------------------------
  // Runs
  // ---------------------------------------------------------------------

  datatype Op = PushOp(c: Byte) | PopOp | BackspaceOp

  /** A double-ended queue: characters join at the back, leave at the front, are dropped at the back. */
  function QueueStep(q: seq<Byte>, op: Op): (seq<Byte>, Byte)
    requires op.BackspaceOp? ==> q != []
  {
    match op
    case PushOp(c) => (if c == 0 then q else q + [c], 0)
    case PopOp => if q == [] then (q, 0) else (q[1..], q[0])
    case BackspaceOp => (q[..|q| - 1], 0)
  }

  function RingStep(s: State, op: Op): (r: (State, Byte))
    requires |s.buffer| == BUFFER_SIZE
    ensures |r.0.buffer| == BUFFER_SIZE
  {
    match op
    case PushOp(c) => (Push(s, c), 0)
    case PopOp => Pop(s)
    case BackspaceOp => (Backspace(s), 0)
  }

  /** At most 1024 characters outstanding, and no backspace when empty. */
  predicate Legal(q: seq<Byte>, ops: seq<Op>)
    decreases |ops|
  {
    ops == [] || (
      && (ops[0].BackspaceOp? ==> q != [])
      && |QueueStep(q, ops[0]).0| <= BUFFER_SIZE
      && Legal(QueueStep(q, ops[0]).0, ops[1..]))
  }

  function QueueRun(q: seq<Byte>, ops: seq<Op>): (seq<Byte>, seq<Byte>)
    requires Legal(q, ops)
    decreases |ops|
  {
    if ops == [] then (q, [])
    else
      var (p, c) := QueueStep(q, ops[0]);
      var (r, out) := QueueRun(p, ops[1..]);
      (r, [c] + out)
  }

  function RingRun(s: State, ops: seq<Op>): (State, seq<Byte>)
    requires |s.buffer| == BUFFER_SIZE
    decreases |ops|
  {
    if ops == [] then (s, [])
    else
      var (t, c) := RingStep(s, ops[0]);
      var (r, out) := RingRun(t, ops[1..]);
      (r, [c] + out)
  }

  /** Every legal run of the ring gives the answers of the queue and ends standing for it. */
  lemma {:induction false} RunRefines(s: State, q: seq<Byte>, ops: seq<Op>)
    requires Holds(s, q) && Legal(q, ops)
    ensures RingRun(s, ops).1 == QueueRun(q, ops).1
    ensures Holds(RingRun(s, ops).0, QueueRun(q, ops).0)
    decreases |ops|
  {
    hide Push, Pop, Backspace, RingAt;
    if ops != [] {
      StepRefines(s, q, ops[0]);
      RunRefines(RingStep(s, ops[0]).0, QueueStep(q, ops[0]).0, ops[1..]);
    }
  }

  lemma StepRefines(s: State, q: seq<Byte>, op: Op)
    requires Holds(s, q) && (op.BackspaceOp? ==> q != []) && |QueueStep(q, op).0| <= BUFFER_SIZE
    ensures RingStep(s, op).1 == QueueStep(q, op).1
    ensures Holds(RingStep(s, op).0, QueueStep(q, op).0)
  {
    match op
    case PushOp(c) => if c != 0 { PushAppends(s, q, c); }
    case PopOp => PopTakesFirst(s, q);
    case BackspaceOp => BackspaceDropsLast(s, q);
  }

  // ---------------------------------------------------------------------
  // The code
  // ---------------------------------------------------------------------

  class KeyboardBuffer {
    const buffer: array<Byte>
    var head: Word
    var tail: Word

    /** The zeroed fields of a new process. */
    constructor ()
      ensures fresh(buffer) && Valid() && Holds(Value(), [])
    {
      buffer := new Byte[BUFFER_SIZE](_ => 0);
      head, tail := 0, 0;
    }

    predicate Valid() {
      buffer.Length == BUFFER_SIZE
    }

    ghost function Value(): State
      reads this, buffer
    {
      State(buffer[..], head, tail)
    }

    /** keyboard_backspace. */
    method KeyboardBackspace()
      requires Valid()
      modifies this`tail, buffer
      ensures Value() == Backspace(old(Value()))
    {
      tail := (tail - 1) % WORD_LIMIT;
      var realIndex := Slot(tail);
      buffer[realIndex] := 0;
    }
  }

  /** What the calls below may change. */
  function Fields(process: KeyboardBuffer?): set<object> {
    if process == null then {} else {process, process.buffer}
  }

  /** keyboard_push: nothing happens without a current process. */
  method KeyboardPush(process: KeyboardBuffer?, c: Byte)
    requires process != null ==> process.Valid()
    modifies Fields(process)
    ensures process != null ==> process.Value() == Push(old(process.Value()), c)
  {
    if process == null {
      return;
    }
    if c == 0 {
      return;
    }
    var realIndex := Slot(process.tail);
    process.buffer[realIndex] := c;
    process.tail := (process.tail + 1) % WORD_LIMIT;
  }

  /** keyboard_pop, for the process of the current task; no character without one. */
  method KeyboardPop(process: KeyboardBuffer?) returns (c: Byte)
    requires process != null ==> process.Valid()
    modifies Fields(process)
    ensures process == null ==> c == 0
    ensures process != null ==> (process.Value(), c) == Pop(old(process.Value()))
  {
    if process == null {
      return 0;
    }
    var realIndex := Slot(process.head);
    c := process.buffer[realIndex];
    if c == 0 {
      return 0;
    }
    process.buffer[realIndex] := 0;
    process.head := (process.head + 1) % WORD_LIMIT;
  }
}
