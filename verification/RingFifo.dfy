/** The fixed-size ring buffer of the texture cache. It is a value member of the cache, so an operation
on it is an expression for its next value. */
module RingFifo {

  datatype Ring<T> = Ring(data: seq<T>, head: nat, tail: nat, num: nat) {
    ghost predicate Valid() {
      && num <= |data|
      && (if |data| == 0 then head == tail == 0 else head < |data| && tail < |data| && head == Slot(num))
    }

    /** The slot of the `i`-th oldest element. */
    function Slot(i: nat): (slot: nat)
      requires tail < |data| && i <= |data|
      ensures slot < |data|
    {
      if tail + i < |data| then tail + i else tail + i - |data|
    }

    /** The elements, oldest first. */
    ghost function Elements(): (s: seq<T>)
      requires Valid()
      ensures |s| == num
    {
      if tail + num <= |data| then data[tail..tail + num] else data[tail..] + data[..tail + num - |data|]
    }

    lemma ElementAt(i: nat)
      requires Valid() && i < num
      ensures Elements()[i] == data[Slot(i)]
    {
    }

    predicate Full() {
      num == |data|
    }

    predicate Empty() {
      num == 0
    }

    /** Appends an element; it goes to the slot `head`. */
    function Push(e: T): (r: Ring<T>)
      requires Valid() && !Full()
      ensures r.Valid() && r.Elements() == Elements() + [e] && r.tail == tail && |r.data| == |data|
      ensures head == r.Slot(num)
    {
      Wrap(head, |data|);
      Ring(data[head := e], (head + 1) % |data|, tail, num + 1)
    }

    /** Drops the oldest element. */
    function Pop(): (r: Ring<T>)
      requires Valid() && !Empty()
      ensures r.Valid() && r.Elements() == Elements()[1..] && |r.data| == |data|
      ensures forall i: nat :: i < r.num ==> r.Slot(i) == Slot(i + 1)
    {
      Wrap(tail, |data|);
      assert tail + num <= |data| ==> Elements()[1..] == data[tail + 1..tail + num];
      assert tail + num > |data| ==> Elements()[1..] == data[tail + 1..] + data[..tail + num - |data|];
      Ring(data, head, (tail + 1) % |data|, num - 1)
    }

    /** The oldest element. */
    function Peek(): (e: T)
      requires Valid() && !Empty()
      ensures e == Elements()[0]
    {
      data[tail]
    }

    /** Overwrites the element in the slot of the `i`-th oldest one. */
    function Replace(slot: nat, e: T, ghost i: nat): (r: Ring<T>)
      requires Valid() && i < num && slot == Slot(i)
      ensures r.Valid() && r.Elements() == Elements()[i := e] && r.tail == tail && |r.data| == |data|
    {
      this.(data := data[slot := e])
    }
  }

  function NewRing<T>(capacity: nat, blank: T): (r: Ring<T>)
    ensures r.Valid() && r.Elements() == [] && |r.data| == capacity
  {
    Ring(seq(capacity, _ => blank), 0, 0, 0)
  }

  /** The next slot of a ring. */
  lemma Wrap(x: nat, n: nat)
    requires x < n
    ensures (x + 1) % n == if x + 1 < n then x + 1 else 0
  {
  }
}
