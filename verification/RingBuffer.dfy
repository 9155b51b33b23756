/**
 The preallocated ring buffers of the dispatcher: a vector of optional slots, the index of the
 oldest element and the number of elements.  The occupied slots are exactly the window that
 starts at `head`; everything below follows from that.
 */
module RingBuffer {
  import opened Basics

  lemma WrapAround(x: nat, n: nat)
    requires 0 < n && x < 2 * n
    ensures x % n == if x < n then x else x - n
  {
    if x >= n {
      assert x == 1 * n + (x - n);
    }
  }

  /** Index of the `i`-th slot counted from `head`. */
  function SlotAt(head: nat, i: nat, n: nat): (slot: nat)
    requires head < n && i <= n
    ensures slot < n
    ensures slot == if head + i < n then head + i else head + i - n
  {
    WrapAround(head + i, n);
    (head + i) % n
  }

  ghost predicate Valid<T>(buffer: seq<Option<T>>, head: nat, count: nat) {
    && head < |buffer|
    && count <= |buffer|
    && forall i :: 0 <= i < |buffer| ==> (buffer[SlotAt(head, i, |buffer|)].Some? <==> i < count)
  }

  /** The queued elements, oldest first. */
  ghost function Window<T>(buffer: seq<Option<T>>, head: nat, count: nat): (window: seq<T>)
    requires Valid(buffer, head, count)
    ensures |window| == count
  {
    seq(count, i requires 0 <= i < count => buffer[SlotAt(head, i, |buffer|)].value)
  }

  /** Enqueueing at the tail fills a vacant slot, so no element is overwritten. */
  lemma Push<T>(buffer: seq<Option<T>>, head: nat, count: nat, x: T)
    requires Valid(buffer, head, count) && count < |buffer|
    ensures var tail := SlotAt(head, count, |buffer|);
            && buffer[tail].None?
            && Valid(buffer[tail := Some(x)], head, count + 1)
            && Window(buffer[tail := Some(x)], head, count + 1) == Window(buffer, head, count) + [x]
  {
  }

  /** Dequeueing takes the oldest element, which is always present when the count is positive. */
  lemma Pop<T>(buffer: seq<Option<T>>, head: nat, count: nat)
    requires Valid(buffer, head, count) && 0 < count
    ensures var next := SlotAt(head, 1, |buffer|);
            && buffer[head] == Some(Window(buffer, head, count)[0])
            && Valid(buffer[head := None], next, count - 1)
            && Window(buffer[head := None], next, count - 1) == Window(buffer, head, count)[1..]
  {
    var n, next, popped := |buffer|, SlotAt(head, 1, |buffer|), buffer[head := None];
    assert SlotAt(head, 0, n) == head;
    forall i | 0 <= i < n
      ensures popped[SlotAt(next, i, n)].Some? <==> i < count - 1
    {
      if i < n - 1 {
        assert SlotAt(next, i, n) == SlotAt(head, i + 1, n) != head;
      } else {
        assert SlotAt(next, i, n) == head;
      }
    }
    forall i | 0 <= i < count - 1
      ensures Window(popped, next, count - 1)[i] == Window(buffer, head, count)[1..][i]
    {
      assert SlotAt(next, i, n) == SlotAt(head, i + 1, n);
    }
  }

  lemma Cleared<T>(buffer: seq<Option<T>>)
    requires 0 < |buffer| && forall i :: 0 <= i < |buffer| ==> buffer[i].None?
    ensures Valid(buffer, 0, 0) && Window(buffer, 0, 0) == []
  {
  }
}
