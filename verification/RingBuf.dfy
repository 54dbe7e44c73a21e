/** A fixed-capacity ring buffer over an array. */
module RingBuf {
  import opened Bytes

  // The slot of the i-th item when the oldest is at head and there are n slots.
  function Slot(head: nat, i: nat, n: nat): (k: nat)
    requires head < n && i <= n
    ensures k < n
    ensures k == if head + i < n then head + i else head + i - n
  {
    WrapOnce(head + i, n);
    (head + i) % n
  }

  lemma {:induction false} WrapOnce(a: nat, n: nat)
    requires 0 < n && a < 2 * n
    ensures a % n == if a < n then a else a - n
  {
  }

  // Which item lies in slot k: the inverse of Slot.
  function IndexOf(head: nat, k: nat, n: nat): (i: nat)
    requires head < n && k < n
    ensures i < n && Slot(head, i, n) == k
  {
    if k >= head then k - head else k + n - head
  }

  class RingBuf<T(==)> {
    const zero: T
    const buf: array<T>
    var head: nat
    var tail: nat
    var count: nat

    // The next free slot follows the live ones, and every slot that holds no item holds the zero value.
    ghost predicate Valid()
      reads this, buf
    {
      && head < buf.Length && count <= buf.Length
      && tail == Slot(head, count, buf.Length)
      && forall k :: 0 <= k < buf.Length && count <= IndexOf(head, k, buf.Length) ==> buf[k] == zero
    }

    // The items, oldest first.
    ghost function Contents(): (s: seq<T>)
      requires Valid()
      reads this, buf
      ensures |s| == count
    {
      seq(count, i requires 0 <= i < count && Valid() reads this, buf => buf[Slot(head, i, buf.Length)])
    }

    constructor (capacity: nat, zeroValue: T)
      requires capacity > 0
      ensures Valid() && fresh(buf) && buf.Length == capacity && zero == zeroValue && Contents() == []
    {
      zero := zeroValue;
      buf := new T[capacity](_ => zeroValue);
      head, tail, count := 0, 0, 0;
    }

    function Len(): (n: nat)
      requires Valid()
      reads this, buf
      ensures n == |Contents()|
    {
      count
    }

    function Cap(): nat {
      buf.Length
    }

    /** Appends the item, unless the buffer is full: then it panics, and ok is false. */
    method Push(item: T) returns (ok: bool)
      requires Valid()
      modifies this`tail, this`count, buf
      ensures Valid() && (ok <==> |old(Contents())| < Cap())
      ensures Contents() == if ok then old(Contents()) + [item] else old(Contents())
    {
      ghost var was := Contents();
      ok := count < buf.Length;
      if !ok {
        return;
      }
      buf[tail] := item;
      tail := (tail + 1) % buf.Length;
      count := count + 1;
      WrapOnce(old(tail) + 1, buf.Length);
      assert Contents()[..old(count)] == was;
      assert Contents() == Contents()[..old(count)] + [item];
    }

    /** The oldest item; None stands for the panic on an empty buffer. */
    function Peek(): (r: Option<T>)
      requires Valid()
      reads this, buf
      ensures r == if Contents() == [] then None else Some(Contents()[0])
    {
      if count != 0 then Some(buf[head]) else None
    }

    /** Drops the oldest item and clears its slot, unless there is none: then it panics, and ok is false. */
    method Pop() returns (ok: bool)
      requires Valid()
      modifies this`head, this`count, buf
      ensures Valid() && (ok <==> old(Contents()) != [])
      ensures Contents() == if ok then old(Contents())[1..] else []
    {
      ghost var was := Contents();
      ok := count != 0;
      if !ok {
        return;
      }
      buf[head] := zero;
      head := (head + 1) % buf.Length;
      count := count - 1;
      WrapOnce(old(head) + 1, buf.Length);
      forall k | 0 <= k < buf.Length && count <= IndexOf(head, k, buf.Length) ensures buf[k] == zero {
        if k != old(head) { assert old(count) <= IndexOf(old(head), k, buf.Length); }
      }
      assert forall i :: 0 <= i < count ==> Contents()[i] == was[i + 1];
    }
  }

  // An empty buffer; None stands for the panic on a capacity that is not positive.
  method New<T(==)>(capacity: int, zero: T) returns (r: Option<RingBuf<T>>)
    ensures r.Some? <==> capacity > 0
    ensures r.Some? ==> fresh(r.value) && fresh(r.value.buf) && r.value.Valid() && r.value.Cap() == capacity
    ensures r.Some? ==> r.value.Contents() == [] && r.value.zero == zero
  {
    if capacity <= 0 {
      return None;
    }
    var b := new RingBuf<T>(capacity, zero);
    r := Some(b);
  }
}
