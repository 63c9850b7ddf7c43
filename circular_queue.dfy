/**
 * The bounded ring queue that connects pipeline stages, taken one thread at
 * a time: a failed attempt is not retried after waiting, since without
 * another thread the retry sees the same queue.
 */
module Queues {
  /**
   * An index below twice the capacity, brought back into the ring.  The
   * queue's `% capacity` is only ever applied to such indices.
   */
  function Wrap(x: nat, c: nat): (r: nat)
    requires x < 2 * c
    ensures r < c
  {
    if x < c then x else x - c
  }

  /** On the indices it is used for, wrapping is the remainder. */
  lemma WrapIsRemainder(x: nat, c: nat)
    requires x < 2 * c
    ensures Wrap(x, c) == x % c
  {
    if x >= c {
      assert x == (x - c) + c;
    }
  }

  /** The `n` elements of the ring `a` starting at slot `h`. */
  function RingContents<T>(a: seq<T>, h: nat, n: nat): (s: seq<T>)
    requires h < |a| && n <= |a|
    ensures |s| == n && forall i | 0 <= i < n :: s[i] == a[Wrap(h + i, |a|)]
  {
    seq(n, i requires 0 <= i < n => a[Wrap(h + i, |a|)])
  }

  /** Writing at the slot after the last element appends it. */
  lemma RingPush<T>(a: seq<T>, h: nat, n: nat, x: T)
    requires h < |a| && n < |a|
    ensures RingContents(a[Wrap(h + n, |a|) := x], h, n + 1) == RingContents(a, h, n) + [x]
  {
  }

  /** Moving the head one slot on drops the first element. */
  lemma RingPop<T>(a: seq<T>, h: nat, n: nat)
    requires h < |a| && 0 < n <= |a|
    ensures RingContents(a, Wrap(h + 1, |a|), n - 1) == RingContents(a, h, n)[1..]
  {
  }

  class CircularQueue<T(0)> {
    var data: array<T>
    var head: nat
    var tail: nat
    var size: nat
    const capacity: nat

    /** The ring invariant: the size fits, and the tail is `size` slots after the head. */
    ghost predicate Valid()
      reads this
    {
      data.Length == capacity && size <= capacity &&
      (capacity == 0 ==> head == 0 && tail == 0) &&
      (capacity > 0 ==> head < capacity && tail == Wrap(head + size, capacity))
    }

    /** The queued elements, oldest first. */
    ghost function Contents(): (s: seq<T>)
      reads this, data
      requires Valid()
      ensures |s| == size
    {
      if capacity == 0 then [] else RingContents(data[..], head, size)
    }

    /** `CircularQueue(max_size)`: empty, with room for `maxSize` elements. */
    constructor (maxSize: nat)
      ensures Valid() && fresh(data) && capacity == maxSize && Contents() == []
    {
      data := new T[maxSize];
      head, tail, size := 0, 0, 0;
      capacity := maxSize;
    }

    /**
     * `try_push(i)`: succeeds exactly when there is room, storing the
     * element at the tail and moving the tail on modulo the capacity; a
     * failed push changes nothing.
     */
    method TryPush(x: T) returns (ok: bool)
      requires Valid()
      modifies this`tail, this`size, data
      ensures Valid()
      ensures ok <==> old(size) < capacity
      ensures ok ==> Contents() == old(Contents()) + [x]
      ensures !ok ==> Contents() == old(Contents()) && tail == old(tail) && size == old(size)
    {
      if size < capacity {
        RingPush(data[..], head, size, x);
        data[tail] := x;
        tail := Wrap(tail + 1, capacity);
        size := size + 1;
        return true;
      }
      return false;
    }

    /**
     * `try_pop(dst)`: succeeds exactly when the queue holds something,
     * taking the element at the head and moving the head on modulo the
     * capacity; a failed pop changes nothing and leaves `dst` as it was.
     */
    method TryPop(dst: T) returns (ok: bool, x: T)
      requires Valid()
      modifies this`head, this`size
      ensures Valid() && data == old(data) && data[..] == old(data[..])
      ensures ok <==> old(size) > 0
      ensures ok ==> x == old(Contents())[0] && Contents() == old(Contents())[1..]
      ensures !ok ==> x == dst && head == old(head) && size == old(size)
    {
      if size > 0 {
        RingPop(data[..], head, size);
        x := data[head];
        head := Wrap(head + 1, capacity);
        size := size - 1;
        return true, x;
      }
      return false, dst;
    }
  }

  /** Elements leave in the order they entered: two pushes into an empty queue, then two pops. */
  method FirstInFirstOut<T(0)>(q: CircularQueue<T>, a: T, b: T) returns (first: T, second: T)
    requires q.Valid() && q.size == 0 && 2 <= q.capacity
    modifies q`head, q`tail, q`size, q.data
    ensures first == a && second == b && q.Valid() && q.Contents() == []
  {
    var ok := q.TryPush(a);
    ok := q.TryPush(b);
    ok, first := q.TryPop(a);
    ok, second := q.TryPop(a);
  }
}
