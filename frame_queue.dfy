/** The bounded blocking queue between the reader thread and the render thread
    (LQTBlockingQueue<VideoFrame>, capacity 3). Blocking is a precondition here:
    a caller that would wait is exactly one that does not meet the requires. */
module FrameQueues {
  import opened Frames

  class FrameQueue {
    const capacity: nat
    /** Frames waiting for the consumer, head first. */
    var items: seq<VideoFrame>
    /** Set by RequestDispose; from then on every operation returns at once. */
    var disposed: bool
    /** Every frame Enqueue took in, in order. */
    ghost var accepted: seq<VideoFrame>
    /** Every frame Dequeue handed out, in order. */
    ghost var taken: seq<VideoFrame>

    /** Bounded, and strictly first in first out: what came out followed by what
        is still waiting is exactly what went in. */
    ghost predicate Valid()
      reads this
    {
      0 < capacity && |items| <= capacity && accepted == taken + items
    }

    constructor (capacity: nat)
      requires capacity > 0
      ensures Valid() && this.capacity == capacity
      ensures items == [] && !disposed && accepted == [] && taken == []
    {
      this.capacity := capacity;
      items := [];
      disposed := false;
      accepted := [];
      taken := [];
    }

    predicate IsFull()
      reads this
    {
      |items| >= capacity
    }

    /** Appends at the tail; a disposed queue drops the frame. A full queue that
        is not disposed blocks the producer, so that call is excluded here. */
    method Enqueue(frame: VideoFrame)
      requires Valid()
      requires disposed || !IsFull()
      modifies this
      ensures Valid() && disposed == old(disposed) && taken == old(taken)
      ensures old(disposed) ==> items == old(items) && accepted == old(accepted)
      ensures !old(disposed) ==> items == old(items) + [frame] && accepted == old(accepted) + [frame]
    {
      if !disposed {
        items := items + [frame];
        accepted := accepted + [frame];
      }
    }

    /** Removes and returns the head; a disposed queue returns no value. An empty
        queue that is not disposed blocks the consumer, so that call is excluded. */
    method Dequeue() returns (r: Option<VideoFrame>)
      requires Valid()
      requires disposed || items != []
      modifies this
      ensures Valid() && disposed == old(disposed) && accepted == old(accepted)
      ensures old(disposed) ==> r == None && items == old(items) && taken == old(taken)
      ensures !old(disposed) ==> r == Some(old(items)[0]) && items == old(items)[1..]
      ensures !old(disposed) ==> taken == old(taken) + [old(items)[0]]
    {
      if disposed {
        r := None;
      } else {
        r := Some(items[0]);
        taken := taken + [items[0]];
        items := items[1..];
      }
    }

    /** Non-blocking look at the head: no value when empty, and never again a
        value once the queue is disposed. */
    method Peek() returns (r: Option<VideoFrame>)
      requires Valid()
      ensures r.Some? <==> !disposed && items != []
      ensures r.Some? ==> r.value == items[0] && r.value in accepted
    {
      if disposed || items == [] {
        r := None;
      } else {
        r := Some(items[0]);
      }
    }

    /** Closes the queue for good; idempotent. */
    method RequestDispose()
      requires Valid()
      modifies this
      ensures Valid() && disposed
      ensures items == old(items) && accepted == old(accepted) && taken == old(taken)
    {
      disposed := true;
    }
  }
}
