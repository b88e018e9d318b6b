/** The keyboard buffer of a process: a ring of 1024 characters under two 32-bit counters that are
    never reduced, in which a zero marks an empty place. */
module Keyboard {
  import opened Bytes

  const SIZE: nat := 1024

  /** Buffer and counters. */
  datatype Ring = Ring(buf: seq<Byte>, head: Word32, tail: Word32)

  function Push(k: Ring, c: Byte): Ring
    requires |k.buf| == SIZE
  {
    Ring(k.buf[k.tail % SIZE := c], k.head, Moved(k.tail, 1))
  }

  function Pop(k: Ring): (Ring, Byte)
    requires |k.buf| == SIZE
  {
    var c := k.buf[k.head % SIZE];
    if c == 0 then (k, 0) else (Ring(k.buf[k.head % SIZE := 0], Moved(k.head, 1), k.tail), c)
  }

  function Backspace(k: Ring): Ring
    requires |k.buf| == SIZE
  {
    var tail := Moved(k.tail, -1);
    Ring(k.buf[tail % SIZE := 0], k.head, tail)
  }

  // ---------------------------------------------------------------- the queue it stands for

  /** Place `j` of the ring, counted from the head. */
  function Place(head: Word32, j: nat): nat {
    (head + j) % SIZE
  }

  /** A counter moved on. */
  function Moved(counter: Word32, n: int): Word32 {
    (counter + n) % TWO32
  }

  /** The characters of `q`, in order from the head, none of them zero, and nothing else. */
  ghost predicate Holds(k: Ring, q: seq<Byte>) {
    && |k.buf| == SIZE && |q| <= SIZE && k.tail == Moved(k.head, |q|)
    && forall j :: 0 <= j < SIZE ==> HoldsAt(k, q, j)
  }

  ghost predicate HoldsAt(k: Ring, q: seq<Byte>, j: nat)
    requires |k.buf| == SIZE
  {
    if j < |q| then k.buf[Place(k.head, j)] == q[j] && q[j] != 0 else k.buf[Place(k.head, j)] == 0
  }

  /** The places of one round are all different. */
  lemma {:induction false} PlaceUnique(head: Word32, i: nat, j: nat)
    requires i < SIZE && j < SIZE
    ensures Place(head, i) == Place(head, j) <==> i == j
  {
  }

  lemma {:induction false} ModMod(x: int)
    ensures x % TWO32 % SIZE == x % SIZE
  {
  }

  /** The counters wrap at 2^32 without moving any place, since 1024 divides 2^32. */
  lemma {:induction false} WrapKeepsPlace(head: Word32, j: nat)
    ensures Moved(head, j) % SIZE == Place(head, j)
    ensures Place(Moved(head, 1), j) == Place(head, j + 1)
    ensures Place(head, SIZE) == Place(head, 0)
  {
    ModMod(head + j);
    assert head + 1 < TWO32 || Moved(head, 1) == 0;
  }

  lemma {:induction false} MovedTwice(head: Word32, n: int, m: int)
    ensures Moved(Moved(head, n), m) == Moved(head, n + m)
  {
    var x, k := head + n, (head + n) / TWO32;
    assert x == k * TWO32 + x % TWO32;
    assert x + m == k * TWO32 + (x % TWO32 + m);
  }

  lemma {:induction false} PushAppends(k: Ring, q: seq<Byte>, c: Byte)
    requires Holds(k, q) && c != 0 && |q| < SIZE
    ensures Holds(Push(k, c), q + [c])
  {
    WrapKeepsPlace(k.head, |q|);
    MovedTwice(k.head, |q|, 1);
    var k', q' := Push(k, c), q + [c];
    forall j | 0 <= j < SIZE
      ensures HoldsAt(k', q', j)
    {
      assert HoldsAt(k, q, j);
      PlaceUnique(k.head, j, |q|);
    }
  }

  /** A push appends exactly if the character is not zero and the ring is not full. */
  lemma {:induction false} PushIff(k: Ring, q: seq<Byte>, c: Byte)
    requires Holds(k, q)
    ensures Holds(Push(k, c), q + [c]) <==> c != 0 && |q| < 1024
  {
    if c != 0 && |q| < SIZE {
      PushAppends(k, q, c);
    } else if |q| < SIZE {
      assert !HoldsAt(Push(k, c), q + [c], |q|);
    }
  }

  /** On a full ring a push displaces the oldest character: the next pop gives the newest. */
  lemma {:induction false} FullPushOvertakes(k: Ring, q: seq<Byte>, c: Byte)
    requires Holds(k, q) && |q| == 1024
    ensures Pop(Push(k, c)).1 == c
  {
    WrapKeepsPlace(k.head, SIZE);
  }

  /** A pop takes the oldest character, and gives zero exactly if there is none. */
  lemma {:induction false} PopTakesOldest(k: Ring, q: seq<Byte>)
    requires Holds(k, q)
    ensures Pop(k).1 == 0 <==> q == []
    ensures q == [] ==> Pop(k).0 == k
    ensures q != [] ==> Pop(k).1 == q[0] && Holds(Pop(k).0, q[1..])
  {
    assert HoldsAt(k, q, 0) && Place(k.head, 0) == k.head % SIZE;
    if q != [] {
      var k' := Pop(k).0;
      MovedTwice(k.head, 1, |q| - 1);
      var q' := q[1..];
      forall j | 0 <= j < SIZE
        ensures HoldsAt(k', q', j)
      {
        WrapKeepsPlace(k.head, j);
        if j + 1 < SIZE {
          assert HoldsAt(k, q, j + 1);
          PlaceUnique(k.head, j + 1, 0);
        }
      }
    }
  }

  /** A backspace takes the newest character back exactly if there is one. */
  lemma {:induction false} BackspaceIff(k: Ring, q: seq<Byte>)
    requires Holds(k, q)
    ensures q != [] ==> Holds(Backspace(k), q[..|q| - 1])
    ensures q == [] ==> !Holds(Backspace(k), [])
  {
    if q != [] {
      var k' := Backspace(k);
      MovedTwice(k.head, |q|, -1);
      WrapKeepsPlace(k.head, |q| - 1);
      var q' := q[..|q| - 1];
      forall j | 0 <= j < SIZE
        ensures HoldsAt(k', q', j)
      {
        assert HoldsAt(k, q, j);
        PlaceUnique(k.head, j, |q| - 1);
      }
    }
  }

  // ---------------------------------------------------------------- every interleaving

  datatype Key = Type(c: Byte) | Erase | Read

  /** The ring after an event, and what a read gave. */
  function React(k: Ring, e: Key): (Ring, Option<Byte>)
    requires |k.buf| == SIZE
  {
    match e
    case Type(c) => (Push(k, c), None)
    case Erase => (Backspace(k), None)
    case Read => (Pop(k).0, Some(Pop(k).1))
  }

  /** The same on a queue: a read of an empty queue gives zero. */
  function Expect(q: seq<Byte>, e: Key): (seq<Byte>, Option<Byte>) {
    match e
    case Type(c) => (q + [c], None)
    case Erase => (if q == [] then [] else q[..|q| - 1], None)
    case Read => if q == [] then (q, Some(0)) else (q[1..], Some(q[0]))
  }

  /** Non-zero characters, room for each, and something to erase for each erasure. */
  ghost predicate Proper(q: seq<Byte>, es: seq<Key>)
    decreases |es|
  {
    es == [] ||
    (&& (es[0].Type? ==> es[0].c != 0 && |q| < 1024)
     && (es[0].Erase? ==> q != [])
     && Proper(Expect(q, es[0]).0, es[1..]))
  }

  function Outputs(k: Ring, es: seq<Key>): seq<Option<Byte>>
    requires |k.buf| == SIZE
    decreases |es|
  {
    if es == [] then [] else var r := React(k, es[0]); [r.1] + Outputs(r.0, es[1..])
  }

  function Expected(q: seq<Byte>, es: seq<Key>): seq<Option<Byte>>
    decreases |es|
  {
    if es == [] then [] else var r := Expect(q, es[0]); [r.1] + Expected(r.0, es[1..])
  }

  /** Over every run the ring cannot be told from a first-in first-out queue. */
  lemma {:induction false} RingIsQueue(k: Ring, q: seq<Byte>, es: seq<Key>)
    requires Holds(k, q) && Proper(q, es)
    ensures Outputs(k, es) == Expected(q, es)
    decreases |es|
  {
    if es != [] {
      match es[0] {
        case Type(c) => PushIff(k, q, c);
        case Erase => BackspaceIff(k, q);
        case Read => PopTakesOldest(k, q);
      }
      RingIsQueue(React(k, es[0]).0, Expect(q, es[0]).0, es[1..]);
    }
  }

  /** After an erasure of nothing the next character is written behind the head, and a read finds
      nothing. */
  lemma {:induction false} EraseTooFar(k: Ring, c: Byte)
    requires Holds(k, []) && c != 0
    ensures Pop(Push(Backspace(k), c)).1 == 0
  {
    assert Place(k.head, 0) == k.head % SIZE;
    assert HoldsAt(k, [], 0);
    assert Moved(k.tail, -1) % SIZE != Place(k.head, 0);
  }

  // ---------------------------------------------------------------- the buffer object

  class Buffer {
    const buffer: array<Byte>
    var head: Word32
    var tail: Word32

    constructor ()
      ensures Valid() && Holds(State(), []) && fresh(buffer) && buffer.Length == 1024
    {
      buffer := new Byte[SIZE](_ => 0);
      head, tail := 0, 0;
    }

    ghost predicate Valid() {
      buffer.Length == SIZE
    }

    ghost function State(): Ring
      reads this, buffer
    {
      Ring(buffer[..], head, tail)
    }

    method KeyPush(c: Byte)
      requires Valid()
      modifies this, buffer
      ensures State() == Push(old(State()), c)
    {
      buffer[tail % SIZE] := c;
      tail := (tail + 1) % TWO32;
    }

    method KeyPop() returns (c: Byte)
      requires Valid()
      modifies this, buffer
      ensures (State(), c) == Pop(old(State()))
    {
      var index := head % SIZE;
      c := buffer[index];
      if c == 0 {
        return 0;
      }
      buffer[index] := 0;
      head := (head + 1) % TWO32;
    }

    method KeyBackspace()
      requires Valid()
      modifies this, buffer
      ensures State() == Backspace(old(State()))
    {
      tail := (tail - 1) % TWO32;
      buffer[tail % SIZE] := 0;
    }
  }
}
