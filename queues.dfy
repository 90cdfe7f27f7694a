/**
 * The bounded FIFO of timestamps of queue.c: a fixed array used as a circular
 * buffer, with head, tail, size and capacity fields. The collision counter and
 * Queue_update_times are the extension the simulator calls (their bodies are
 * not in queue.c); their contracts here are the assumed behaviour.
 */
module Queues {

  /** x % c for an x below 2c, written without the modulus. */
  lemma ModOfSmall(x: int, c: int)
    requires c > 0 && 0 <= x < 2 * c
    ensures x % c == if x < c then x else x - c
  {
  }

  /**
   * What Queue_update_times(q, t) does to the queued timestamps: every entry
   * strictly below t is raised to t, the others stay, and the order of the
   * entries is kept.
   */
  function RaiseBelow(s: seq<real>, t: real): (r: seq<real>)
    ensures |r| == |s|
    ensures forall k :: 0 <= k < |s| && s[k] < t ==> r[k] == t
    ensures forall k :: 0 <= k < |s| && t <= s[k] ==> r[k] == s[k]
  {
    if s == [] then [] else [if s[0] < t then t else s[0]] + RaiseBelow(s[1..], t)
  }

  /** Raising keeps the entries in their relative order and puts none below t. */
  lemma RaiseBelowMonotone(s: seq<real>, t: real)
    ensures forall k :: 0 <= k < |s| ==> t <= RaiseBelow(s, t)[k] && s[k] <= RaiseBelow(s, t)[k]
    ensures forall a, b :: 0 <= a < b < |s| && s[a] <= s[b] ==> RaiseBelow(s, t)[a] <= RaiseBelow(s, t)[b]
  {
  }

  /** Raising twice to the same time is raising once; raising to t then u is raising to the later one. */
  lemma RaiseBelowCompose(s: seq<real>, t: real, u: real)
    ensures RaiseBelow(RaiseBelow(s, t), u) == RaiseBelow(s, if t < u then u else t)
  {
  }

  class Queue {
    const arr: array<real>
    var head: nat
    var tail: nat
    var size: nat
    const capacity: nat
    /** The counter behind Queue_Increment_Collision, Queue_Collision_Count and Queue_Reset_Collision. */
    var collisions: nat
    /** The queued timestamps, oldest first. */
    ghost var Contents: seq<real>

    /** Array index of the k-th oldest entry: (head + k) % capacity, for k <= capacity. */
    function Slot(k: nat): nat
      reads this
    {
      if head + k < capacity then head + k else head + k - capacity
    }

    ghost predicate Valid()
      reads this, arr
    {
      && arr.Length == capacity
      && size <= capacity
      && (capacity == 0 ==> head == 0 && tail == 0)
      && (capacity > 0 ==> head < capacity && tail == Slot(size) && tail < capacity)
      && |Contents| == size
      && forall k :: 0 <= k < size ==> Contents[k] == arr[Slot(k)]
    }

    /** The representation invariant as the C fields state it. */
    lemma TailIsModular()
      requires Valid() && capacity > 0
      ensures head < capacity && tail < capacity
      ensures tail == (head + size) % capacity
    {
    }

    /** Queue_Init(capacity). */
    constructor (capacity: nat)
      ensures Valid() && fresh(arr)
      ensures this.capacity == capacity && arr.Length == capacity
      ensures head == 0 && tail == 0 && size == 0 && collisions == 0
      ensures Contents == []
    {
      this.capacity := capacity;
      head, tail, size, collisions := 0, 0, 0, 0;
      arr := new real[capacity];
      Contents := [];
    }

    function IsEmpty(): (b: bool)
      reads this, arr
      requires Valid()
      ensures b <==> Contents == []
    {
      size == 0
    }

    function IsFull(): (b: bool)
      reads this, arr
      requires Valid()
      ensures b <==> |Contents| == capacity
    {
      size == capacity
    }

    /**
     * Queue_PeekHead reads arr[head] without checking for emptiness: on an
     * empty queue the result is whatever the head slot last held.
     */
    function PeekHead(): (r: real)
      reads this, arr
      requires Valid() && capacity > 0
      ensures Contents != [] ==> r == Contents[0]
    {
      arr[head]
    }

    /**
     * Queue_PeekTail reads arr[tail], the slot the next Enqueue writes; only on
     * a full queue is that slot an entry, the oldest one.
     */
    function PeekTail(): (r: real)
      reads this, arr
      requires Valid() && capacity > 0
      ensures |Contents| == capacity ==> r == Contents[0]
    {
      arr[tail]
    }

    /** Queue_Enqueue: -1 on a full queue, leaving everything as it was; otherwise the new size. */
    method Enqueue(val: real) returns (r: int)
      requires Valid()
      modifies this, arr
      ensures Valid() && collisions == old(collisions)
      ensures old(size) == capacity ==> r == -1 && unchanged(this) && unchanged(arr)
      ensures old(size) < capacity ==>
        && r == old(size) + 1 && r == size
        && Contents == old(Contents) + [val]
        && head == old(head)
    {
      if IsFull() {
        return -1;
      }
      arr[tail] := val;
      ModOfSmall(tail + 1, capacity);
      tail := (tail + 1) % capacity;
      size := size + 1;
      Contents := Contents + [val];
      return size;
    }

    /**
     * Queue_Dequeue has no emptiness check (the INT16_MIN failure value its
     * header announces is never produced), so the caller must know the queue
     * is non-empty.
     */
    method Dequeue() returns (r: real)
      requires Valid() && Contents != []
      modifies this
      ensures Valid() && collisions == old(collisions)
      ensures tail == old(tail)
      ensures r == old(Contents)[0] && Contents == old(Contents)[1..]
    {
      r := arr[head];
      ModOfSmall(head + 1, capacity);
      head := (head + 1) % capacity;
      size := size - 1;
      Contents := Contents[1..];
    }

    /** Queue_Increment_Collision. */
    method IncrementCollision()
      requires Valid()
      modifies this`collisions
      ensures Valid() && collisions == old(collisions) + 1
    {
      collisions := collisions + 1;
    }

    /** Queue_Reset_Collision. */
    method ResetCollision()
      requires Valid()
      modifies this`collisions
      ensures Valid() && collisions == 0
    {
      collisions := 0;
    }

    /**
     * Queue_update_times(q, t), walking the occupied slots from head:
     * every entry below t becomes t, in place.
     */
    method UpdateTimes(t: real)
      requires Valid()
      modifies this`Contents, arr
      ensures Valid() && Contents == RaiseBelow(old(Contents), t)
    {
      ghost var before := Contents;
      var i := 0;
      while i < size
        invariant 0 <= i <= size
        invariant forall k :: 0 <= k < size ==>
          arr[Slot(k)] == if k < i && before[k] < t then t else before[k]
      {
        var j := Slot(i);
        if arr[j] < t {
          arr[j] := t;
        }
        i := i + 1;
      }
      Contents := RaiseBelow(before, t);
    }
  }

  /** Enqueueing v1..vk into an empty queue of capacity >= k and dequeueing k times gives v1..vk back. */
  method RoundTrip(capacity: nat, vs: seq<real>) returns (out: seq<real>)
    requires |vs| <= capacity
    ensures out == vs
  {
    var q := new Queue(capacity);
    var i := 0;
    while i < |vs|
      invariant 0 <= i <= |vs|
      invariant fresh(q) && fresh(q.arr)
      invariant q.Valid() && q.capacity == capacity && q.Contents == vs[..i]
    {
      var n := q.Enqueue(vs[i]);
      assert vs[..i + 1] == vs[..i] + [vs[i]];
      i := i + 1;
    }
    out := [];
    while !q.IsEmpty()
      invariant fresh(q) && fresh(q.arr)
      invariant q.Valid() && out + q.Contents == vs
      decreases |q.Contents|
    {
      ghost var rest := q.Contents;
      var v := q.Dequeue();
      assert rest == [v] + q.Contents;
      out := out + [v];
    }
  }
}
