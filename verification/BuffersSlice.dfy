/** The iterator over a slice of buffers, with its fields updated in place
    (`BuffersSliceIoSlicesIter` in utils-common/src/io_slices.rs). */
module BuffersSlice {
  import opened Results
  import opened IoSlices

  class BuffersSliceIter<T> {
    var buffers: seq<seq<T>>
    var head: Option<seq<T>>
    var tail: Option<seq<T>>

    ghost function Snap(): Iter<T> reads this { Buffers(head, buffers, tail) }

    constructor (buffers_slice: seq<seq<T>>)
      ensures Snap() == Buffers(None, buffers_slice, None) && View(Snap()) == Flatten(buffers_slice)
    {
      buffers, head, tail := buffers_slice, None, None;
    }

    /** `refill_head`: moves on past empty buffers, the tail last. */
    method RefillHead()
      requires Valid(Snap()) && head.None?
      modifies this
      ensures Valid(Snap()) && Snap() == Refilled(old(Snap()))
    {
      while buffers != []
        invariant tail == old(tail) && (head.Some? ==> |head.value| == 0)
        invariant Refill(buffers, tail) == Refill(old(buffers), old(tail))
        decreases |buffers|
      {
        head, buffers := Some(buffers[0]), buffers[1..];
        if |head.value| > 0 { return; }
      }
      head, tail := tail, None;
    }

    /** `next_slice` and `next_slice_mut`. */
    method TakeFront(max: Option<nat>) returns (slice: Option<seq<T>>)
      requires Valid(Snap())
      modifies this
      ensures Valid(Snap()) && Taken(slice, Snap()) == NextSlice(old(Snap()), max)
    {
      if head.None? { RefillHead(); }
      if max.None? {
        slice, head := head, None;
        assert slice.Some? ==> HeadPart(slice.value, max) == slice.value;
        return;
      }
      if head.None? { return None; }
      var h := head.value;
      var n := Min(max.value, |h|);
      slice, head := Some(h[..n]), if n < |h| then Some(h[n..]) else None;
    }

    /** The first part of `next_back_slice`: moves back past empty buffers, the head
        last. */
    method RefillTail()
      requires Valid(Snap()) && tail.None?
      modifies this
      ensures Valid(Snap()) && Snap() == BackRefilled(old(Snap()))
    {
      while buffers != []
        invariant head == old(head) && tail.None?
        invariant RefillBack(head, buffers) == RefillBack(old(head), old(buffers))
        decreases |buffers|
      {
        var n := |buffers| - 1;
        var last := buffers[n];
        buffers := buffers[..n];
        if |last| > 0 {
          tail := Some(last);
          return;
        }
      }
      tail, head := head, None;
    }

    /** `next_back_slice` and `next_back_slice_mut`. */
    method TakeBack(max: Option<nat>) returns (slice: Option<seq<T>>)
      requires Valid(Snap())
      modifies this
      ensures Valid(Snap()) && Taken(slice, Snap()) == NextBackSlice(old(Snap()), max)
    {
      if tail.None? { RefillTail(); }
      if max.None? {
        slice, tail := tail, None;
        assert slice.Some? ==> BackPart(slice.value, max) == slice.value;
        return;
      }
      if tail.None? { return None; }
      var t := tail.value;
      var n := Min(max.value, |t|);
      slice, tail := Some(t[|t| - n..]), if n < |t| then Some(t[..|t| - n]) else None;
    }

    /** `decoupled_borrow`: an independent iterator over the same data. */
    method DecoupledBorrow() returns (r: BuffersSliceIter<T>)
      requires Valid(Snap())
      ensures fresh(r) && r.Snap() == Snap()
    {
      r := new BuffersSliceIter(buffers);
      r.head, r.tail := head, tail;
    }

    /** Serve a series of requests at both ends: the pieces taken and what is left
        make up what there was. */
    method Serve(reqs: seq<Request>) returns (front: seq<T>, back: seq<T>)
      requires Valid(Snap())
      modifies this
      ensures Valid(Snap()) && old(View(Snap())) == front + View(Snap()) + back
    {
      front, back := [], [];
      for k := 0 to |reqs|
        invariant Valid(Snap()) && old(View(Snap())) == front + View(Snap()) + back
      {
        var slice;
        if reqs[k].end == Front {
          slice := TakeFront(reqs[k].max);
          ConcatAssoc(front, Slot(slice), View(Snap()));
          front := front + Slot(slice);
        } else {
          slice := TakeBack(reqs[k].max);
          ConcatAssoc(front, View(Snap()), Slot(slice));
          ConcatAssoc(front + View(Snap()), Slot(slice), back);
          back := Slot(slice) + back;
        }
      }
    }
  }
}
