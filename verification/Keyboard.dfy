/** A process's keyboard buffer: a ring of 1024 characters and what it means. */
module Keyboard {
  import opened Words

  const BUFFER_SIZE := 1024

  /** The buffer, and how many characters were ever taken out and put in. */
  datatype Ring = Ring(buffer: seq<byte>, head: nat, tail: nat)

  function Index(n: nat): (i: nat)
    ensures i < BUFFER_SIZE
  {
    n % BUFFER_SIZE
  }

  function Push(r: Ring, c: byte): Ring
    requires |r.buffer| == BUFFER_SIZE
  {
    Ring(r.buffer[Index(r.tail) := c], r.head, r.tail + 1)
  }

  function Backspace(r: Ring): Ring
    requires |r.buffer| == BUFFER_SIZE && r.tail > 0
  {
    Ring(r.buffer[Index(r.tail - 1) := 0], r.head, r.tail - 1)
  }

  /** The character taken out, or 0, and the ring without it. */
  function Pop(r: Ring): (byte, Ring)
    requires |r.buffer| == BUFFER_SIZE
  {
    var c := r.buffer[Index(r.head)];
    if c == 0 then (0, r) else (c, Ring(r.buffer[Index(r.head) := 0], r.head + 1, r.tail))
  }

  /** Where the `k`-th pending character is. */
  function Slot(r: Ring, k: nat): (i: nat)
    ensures i < BUFFER_SIZE
  {
    Index(r.head + k)
  }

  /** The ring holds exactly the pending characters `text`: from the head on, with zeros behind. */
  ghost predicate Holds(r: Ring, text: seq<byte>) {
    && |r.buffer| == BUFFER_SIZE && |text| <= BUFFER_SIZE && r.tail == r.head + |text|
    && (forall k | 0 <= k < |text| :: text[k] != 0)
    && forall k | 0 <= k < BUFFER_SIZE :: r.buffer[Slot(r, k)] == if k < |text| then text[k] else 0
  }

  lemma Apart(n: nat, j: nat, k: nat)
    requires j < BUFFER_SIZE && k < BUFFER_SIZE
    ensures Index(n + j) == Index(n + k) <==> j == k
  {
  }

  /** A push appends exactly if the character is not 0 and fewer than 1024 are pending; otherwise it
      leaves a gap or overwrites the oldest. */
  lemma PushAppendsIff(r: Ring, text: seq<byte>, c: byte)
    requires Holds(r, text)
    ensures Holds(Push(r, c), text + [c]) <==> c != 0 && |text| < BUFFER_SIZE
  {
    var after, longer := Push(r, c), text + [c];
    if c != 0 && |text| < BUFFER_SIZE {
      forall k | 0 <= k < BUFFER_SIZE
        ensures after.buffer[Slot(after, k)] == if k < |longer| then longer[k] else 0
      {
        assert r.buffer[Slot(r, k)] == if k < |text| then text[k] else 0;
        if Slot(r, k) == Slot(r, |text|) {
          Apart(r.head, k, |text|);
        }
      }
    } else if c == 0 {
      assert longer[|text|] == 0;
    }
  }

  /** A backspace removes the last character exactly if there is one. */
  lemma BackspaceErasesIff(r: Ring, text: seq<byte>)
    requires Holds(r, text) && r.tail > 0
    ensures text != [] ==> Holds(Backspace(r), text[..|text| - 1])
    ensures text == [] ==> forall any: seq<byte> :: !Holds(Backspace(r), any)
  {
    if text != [] {
      var after, shorter := Backspace(r), text[..|text| - 1];
      forall k | 0 <= k < BUFFER_SIZE
        ensures after.buffer[Slot(after, k)] == if k < |shorter| then shorter[k] else 0
      {
        assert r.buffer[Slot(r, k)] == if k < |text| then text[k] else 0;
        if Slot(r, k) == Slot(r, |shorter|) {
          Apart(r.head, k, |shorter|);
        }
      }
    }
  }

  lemma NextRound(n: nat)
    ensures Index(n + 1 + (BUFFER_SIZE - 1)) == Index(n)
  {
  }

  /** A pop takes the oldest character, and answers 0 exactly if there is none. */
  lemma PopTakesFirst(r: Ring, text: seq<byte>)
    requires Holds(r, text)
    ensures Pop(r).0 == 0 <==> text == []
    ensures text == [] ==> Pop(r).1 == r
    ensures text != [] ==> Pop(r).0 == text[0] && Holds(Pop(r).1, text[1..])
  {
    assert r.buffer[Slot(r, 0)] == if 0 < |text| then text[0] else 0;
    if text != [] {
      var after, rest := Pop(r).1, text[1..];
      forall k | 0 <= k < BUFFER_SIZE
        ensures after.buffer[Slot(after, k)] == if k < |rest| then rest[k] else 0
      {
        if k == BUFFER_SIZE - 1 {
          NextRound(r.head);
        } else {
          assert r.buffer[Slot(r, k + 1)] == if k + 1 < |text| then text[k + 1] else 0;
          Apart(r.head, k + 1, 0);
        }
      }
    }
  }

  // ---------------------------------------------------------------- all runs

  datatype Key = Press(c: byte) | Erase | Take

  /** What is left of the ring after the calls, and what the pops answered. */
  function Run(r: Ring, keys: seq<Key>): (Ring, seq<byte>)
    requires |r.buffer| == BUFFER_SIZE
    decreases |keys|
  {
    if keys == [] then (r, []) else
    match keys[0]
    case Press(c) => Run(Push(r, c), keys[1..])
    case Erase => if r.tail == 0 then (r, []) else Run(Backspace(r), keys[1..])
    case Take => var rest := Run(Pop(r).1, keys[1..]); (rest.0, [Pop(r).0] + rest.1)
  }

  /** The same calls on a plain sequence. */
  function RunText(text: seq<byte>, keys: seq<Key>): (seq<byte>, seq<byte>)
    decreases |keys|
  {
    if keys == [] then (text, []) else
    match keys[0]
    case Press(c) => RunText(text + [c], keys[1..])
    case Erase => if text == [] then (text, []) else RunText(text[..|text| - 1], keys[1..])
    case Take =>
      var rest := RunText(if text == [] then [] else text[1..], keys[1..]);
      (rest.0, [if text == [] then 0 else text[0]] + rest.1)
  }

  /** No zeros typed, never more than 1024 pending, no backspace when nothing is. */
  predicate Proper(text: seq<byte>, keys: seq<Key>)
    decreases |keys|
  {
    keys == [] ||
    match keys[0]
    case Press(c) => c != 0 && |text| < BUFFER_SIZE && Proper(text + [c], keys[1..])
    case Erase => text != [] && Proper(text[..|text| - 1], keys[1..])
    case Take => Proper(if text == [] then [] else text[1..], keys[1..])
  }

  /** Over every proper run the ring is a sequence: the same answers, and the same text pending. */
  lemma {:induction false} EveryRunRefines(r: Ring, text: seq<byte>, keys: seq<Key>)
    requires Holds(r, text) && Proper(text, keys)
    ensures Run(r, keys).1 == RunText(text, keys).1 && Holds(Run(r, keys).0, RunText(text, keys).0)
    decreases |keys|
  {
    if keys != [] {
      match keys[0] {
        case Press(c) =>
          PushAppendsIff(r, text, c);
          EveryRunRefines(Push(r, c), text + [c], keys[1..]);
        case Erase =>
          BackspaceErasesIff(r, text);
          EveryRunRefines(Backspace(r), text[..|text| - 1], keys[1..]);
        case Take =>
          PopTakesFirst(r, text);
          EveryRunRefines(Pop(r).1, if text == [] then [] else text[1..], keys[1..]);
      }
    }
  }

  /** The buffer of a process, as the kernel updates it. */
  class KeyboardBuffer {
    const buffer: array<byte>
    var head: nat
    var tail: nat

    constructor (b: array<byte>)
      requires b.Length == BUFFER_SIZE && forall k | 0 <= k < BUFFER_SIZE :: b[k] == 0
      ensures buffer == b && Holds(Value(), [])
    {
      buffer, head, tail := b, 0, 0;
    }

    /** The ring that the fields make up. */
    function Value(): (r: Ring)
      reads this, buffer
    {
      Ring(buffer[..], head, tail)
    }

    /** `keyboard_push`, for the current process. */
    method Add(c: byte)
      requires buffer.Length == BUFFER_SIZE && tail < MAX_INT
      modifies this, buffer
      ensures Value() == Push(old(Value()), c)
    {
      var realIndex := tail % BUFFER_SIZE;
      buffer[realIndex] := c;
      tail := tail + 1;
    }

    /** `keyboard_backspace`. At 0 the index would be negative. */
    method EraseLast()
      requires buffer.Length == BUFFER_SIZE && tail > 0
      modifies this, buffer
      ensures Value() == Backspace(old(Value()))
    {
      tail := tail - 1;
      var realIndex := tail % BUFFER_SIZE;
      buffer[realIndex] := 0;
    }

    /** `keyboard_pop`. */
    method TakeFirst() returns (c: byte)
      requires buffer.Length == BUFFER_SIZE && head < MAX_INT
      modifies this, buffer
      ensures (c, Value()) == Pop(old(Value()))
    {
      var realIndex := head % BUFFER_SIZE;
      c := buffer[realIndex];
      if c == 0 {
        return;
      }
      buffer[realIndex] := 0;
      head := head + 1;
    }
  }
}
