/** The growing ring buffer of libjl777/jl777hash.h. Values are pointers; 0 is the null pointer
    with which the source marks an empty slot and an empty queue. */
module RingQueue {
  /** The fields of queue_t that the two operations use; capacity is the length of the buffer. */
  datatype Ring = Ring(buffer: seq<nat>, inn: nat, out: nat, size: nat)

  function Capacity(r: Ring): nat { |r.buffer| }

  /** Positions wrap around at the capacity. */
  function Wrap(a: nat, n: nat): (p: nat)
    requires n > 0
    ensures p < n && (a < n ==> p == a) && (n <= a < 2 * n ==> p == a - n)
  {
    a % n
  }

  predicate Valid(r: Ring) {
    && r.size <= Capacity(r)
    && (Capacity(r) == 0 ==> r.inn == 0 && r.out == 0)
    && (Capacity(r) > 0 ==> r.inn < Capacity(r) && r.out < Capacity(r) && r.inn == Wrap(r.out + r.size, Capacity(r)))
  }

  /** The queued values, oldest first. */
  function Contents(r: Ring): (s: seq<nat>)
    requires r.size > 0 ==> Capacity(r) > 0
    ensures |s| == r.size && forall i | 0 <= i < r.size :: s[i] == r.buffer[Wrap(r.out + i, Capacity(r))]
  {
    seq(r.size, i requires 0 <= i < r.size => r.buffer[Wrap(r.out + i, Capacity(r))])
  }

  /** One more slot; the write position moves there only if it was 0. */
  function Grow(r: Ring): Ring {
    Ring(r.buffer + [0], if r.inn == 0 then r.size else r.inn, r.out, r.size)
  }

  function Put(r: Ring, value: nat): Ring
    requires r.inn < Capacity(r)
  {
    Ring(r.buffer[r.inn := value], Wrap(r.inn + 1, Capacity(r)), r.out, r.size + 1)
  }

  function Enqueue(r: Ring, value: nat): Ring
    requires Valid(r)
  {
    Put(if r.size == Capacity(r) then Grow(r) else r, value)
  }

  function Dequeue(r: Ring): (Ring, nat)
    requires Valid(r)
  {
    if r.size == 0 then (r, 0)
    else (Ring(r.buffer[r.out := 0], r.inn, Wrap(r.out + 1, Capacity(r)), r.size - 1), r.buffer[r.out])
  }

  // ----- the queue laws -----

  lemma DequeueFifo(r: Ring)
    requires Valid(r)
    ensures
      var (r', v) := Dequeue(r);
      && Valid(r')
      && (r.size == 0 ==> v == 0 && r' == r)
      && (r.size > 0 ==> v == Contents(r)[0] && Contents(r') == Contents(r)[1..])
  {
    hide Wrap, Contents;
    if r.size > 0 {
      var (r', v) := Dequeue(r);
      forall i | 0 <= i < r'.size ensures Contents(r')[i] == Contents(r)[i + 1] {
        assert Wrap(r'.out + i, Capacity(r)) == Wrap(r.out + (i + 1), Capacity(r)) != r.out;
      }
    }
  }

  lemma PutFifo(r: Ring, value: nat)
    requires Valid(r) && r.size < Capacity(r)
    ensures Valid(Put(r, value)) && Contents(Put(r, value)) == Contents(r) + [value]
  {
    hide Wrap, Contents;
    var r' := Put(r, value);
    forall i | 0 <= i < r'.size ensures Contents(r')[i] == (Contents(r) + [value])[i] {
      assert i < r.size ==> Wrap(r.out + i, Capacity(r)) != r.inn;
    }
  }

  /** Growing at write position 0 keeps the contents and leaves the new slot free for the next value. */
  lemma GrowAtZero(r: Ring)
    requires Valid(r) && r.size == Capacity(r) && r.inn == 0
    ensures Valid(Grow(r)) && Contents(Grow(r)) == Contents(r)
  {
    hide Wrap, Contents;
    assert r.out == 0;
    forall i | 0 <= i < r.size ensures Contents(Grow(r))[i] == Contents(r)[i] {
      assert Wrap(r.out + i, Capacity(r)) == i;
    }
  }

  /** Growing elsewhere overwrites the oldest value and puts an empty slot in the middle. */
  lemma GrowElsewhere(r: Ring, value: nat)
    requires Valid(r) && r.size == Capacity(r) && r.inn != 0
    ensures
      var r' := Enqueue(r, value);
      && r.inn == r.out
      && Contents(r')[0] == value
      && Contents(r')[Capacity(r) - r.out] == 0
      && Contents(r)[Capacity(r) - r.out] == r.buffer[0]
  {
    hide Wrap, Contents;
    assert Wrap(r.out + (Capacity(r) - r.out), Capacity(r)) == 0;
    assert Wrap(r.out + (Capacity(r) - r.out), Capacity(r) + 1) == Capacity(r);
  }

  /** An enqueue of a queue of non-null values is a FIFO append exactly when the ring has room or
      its write position is 0; otherwise the oldest value is lost. */
  lemma EnqueueFifo(r: Ring, value: nat)
    requires Valid(r) && 0 !in Contents(r)
    ensures Contents(Enqueue(r, value)) == Contents(r) + [value] <==> r.size < Capacity(r) || r.inn == 0
    ensures r.size < Capacity(r) || r.inn == 0 ==> Valid(Enqueue(r, value))
  {
    hide Wrap, Contents;
    if r.size < Capacity(r) {
      PutFifo(r, value);
    } else if r.inn == 0 {
      GrowAtZero(r);
      PutFifo(Grow(r), value);
    } else {
      GrowElsewhere(r, value);
      assert Contents(r)[Capacity(r) - r.out] in Contents(r);
    }
  }

  /** The smallest history that loses a value: 1 and 2 are queued, 1 is taken, 3 and 4 are queued. */
  lemma LostValue()
    ensures
      var empty := Ring([], 0, 0, 0);
      var two := Enqueue(Enqueue(empty, 1), 2);
      var one := Dequeue(two).0;
      var full := Enqueue(one, 3);
      Valid(full) && Contents(full) == [2, 3] && Enqueue(full, 4).buffer[Enqueue(full, 4).out] == 4
  {
    var empty := Ring([], 0, 0, 0);
    var one1 := Enqueue(empty, 1);
    assert one1 == Ring([1], 0, 0, 1);
    var two := Enqueue(one1, 2);
    assert two == Ring([1, 2], 0, 0, 2);
    var one := Dequeue(two).0;
    assert one == Ring([0, 2], 0, 1, 1);
    var full := Enqueue(one, 3);
    assert full == Ring([3, 2], 1, 1, 2);
    assert Contents(full) == [2, 3];
    assert Enqueue(full, 4) == Ring([3, 4, 0], 2, 1, 3);
  }

  // ----- histories -----

  datatype Op = In(value: nat) | Out

  predicate InTime(r: Ring, value: nat) { value != 0 && (r.size < Capacity(r) || r.inn == 0) }

  /** Every enqueue of the history meets the condition of EnqueueFifo. */
  predicate GoodHistory(r: Ring, ops: seq<Op>)
    requires Valid(r) && 0 !in Contents(r)
    decreases ops
  {
    if ops == [] then true
    else
      match ops[0]
      case In(v) => InTime(r, v) && (EnqueueFifo(r, v); GoodHistory(Enqueue(r, v), ops[1..]))
      case Out => (DequeueFifo(r); GoodHistory(Dequeue(r).0, ops[1..]))
  }

  /** What a history of operations hands out. */
  function Outputs(r: Ring, ops: seq<Op>): seq<nat>
    requires Valid(r) && 0 !in Contents(r) && GoodHistory(r, ops)
    decreases ops
  {
    if ops == [] then []
    else
      match ops[0]
      case In(v) => (EnqueueFifo(r, v); Outputs(Enqueue(r, v), ops[1..]))
      case Out => (DequeueFifo(r); [Dequeue(r).1] + Outputs(Dequeue(r).0, ops[1..]))
  }

  /** The same history run on an abstract first-in first-out sequence. */
  function FifoOutputs(q: seq<nat>, ops: seq<Op>): seq<nat>
    decreases ops
  {
    if ops == [] then []
    else
      match ops[0]
      case In(v) => FifoOutputs(q + [v], ops[1..])
      case Out => if q == [] then [0] + FifoOutputs(q, ops[1..]) else [q[0]] + FifoOutputs(q[1..], ops[1..])
  }

  /** On every such history the ring hands out exactly what a FIFO queue would. */
  lemma {:induction false} RingRefinesFifo(r: Ring, ops: seq<Op>)
    requires Valid(r) && 0 !in Contents(r) && GoodHistory(r, ops)
    ensures Outputs(r, ops) == FifoOutputs(Contents(r), ops)
    decreases ops
  {
    if ops != [] {
      match ops[0]
      case In(v) =>
        EnqueueFifo(r, v);
        RingRefinesFifo(Enqueue(r, v), ops[1..]);
      case Out =>
        DequeueFifo(r);
        RingRefinesFifo(Dequeue(r).0, ops[1..]);
    }
  }

  // ----- the object -----

  class Queue {
    var buffer: seq<nat>
    var inn: nat
    var out: nat
    var size: nat

    ghost function State(): Ring
      reads this
    {
      Ring(buffer, inn, out, size)
    }

    constructor ()
      ensures State() == Ring([], 0, 0, 0)
    {
      buffer, inn, out, size := [], 0, 0, 0;
    }

    method QueueEnqueue(value: nat)
      requires Valid(State())
      modifies this
      ensures State() == Enqueue(old(State()), value)
    {
      while size == |buffer|
        invariant State() == old(State()) || (old(size) == |old(buffer)| && State() == Grow(old(State())))
        decreases size + 1 - |buffer|
      {
        buffer := buffer + [0];
        if inn == 0 {
          inn := size;
        }
      }
      buffer := buffer[inn := value];
      inn := inn + 1;
      size := size + 1;
      inn := inn % |buffer|;
    }

    method QueueDequeue() returns (value: nat)
      requires Valid(State())
      modifies this
      ensures (State(), value) == Dequeue(old(State()))
    {
      value := 0;
      if size > 0 {
        value := buffer[out];
        buffer := buffer[out := 0];
        size := size - 1;
        out := out + 1;
        out := out % |buffer|;
      }
    }
  }
}
