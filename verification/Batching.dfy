/** Which frames share a datagram. */
module Batching {
  import opened Frames
  import opened SendQueues

  /** A frame that is handed over joins the pending batch exactly when it is no fragment and
      the batch stays below the budget. Otherwise it becomes a frame set of its own, under
      the next number, and leaves the batch alone. */
  lemma JoinsTheBatchIff(q: SendQueue, frame: Frame, now: nat)
    requires q.Consistent()
    ensures var r := q.AddFrame(frame, now);
            if !frame.split && TotalLength(q.setQueue + [frame]) < q.mtu - 42 then
              r.setQueue == q.setQueue + [frame] && r.queue == q.queue && r.max == q.max
            else
              && r.setQueue == q.setQueue && r.max == q.max + 1
              && r.queue == q.queue[q.max := FrameSet(if frame.split then 0x8c else 0x84, q.max, [frame])]
  {
    TotalLengthSnoc(q.setQueue, frame);
  }

  lemma {:induction false} TotalLengthFront(frames: seq<Frame>, f: Frame)
    ensures TotalLength(frames) <= TotalLength(frames + [f]) && (frames + [f])[..|frames|] == frames
  {
    TotalLengthSnoc(frames, f);
  }

  /** Whole frames that together stay below the budget all wait in one batch. */
  lemma {:induction false} AllJoin(q: SendQueue, frames: seq<Frame>, now: nat)
    requires q.Consistent() && q.setQueue == []
    requires forall f :: f in frames ==> !f.split
    requires frames != [] ==> TotalLength(frames) < q.mtu - 42
    ensures q.AddAll(frames, now) == q.(setQueue := frames, setSize := TotalLength(frames))
  {
    if frames != [] {
      var front, last := frames[..|frames| - 1], frames[|frames| - 1];
      assert frames == front + [last];
      TotalLengthFront(front, last);
      AllJoin(q, front, now);
      TotalLengthSnoc(front, last);
    }
  }

  lemma ClosedBatch(r: SendQueue, later: nat)
    requires r.Valid() && r.sendMin == r.max && r.setQueue != []
    ensures var c := r.CloseBatch(later);
            && c.sendMin == r.max && c.max == r.max + 1 && c.Window()
            && Slice(c.queue, c.sendMin, c.max) == [FrameSet(0x84, r.max, r.setQueue)]
  {
  }

  /** A batch that nothing else waits with is what the next emission begins with. */
  lemma BatchIsEmitted(r: SendQueue, later: nat, order: seq<nat>)
    requires r.Valid() && r.sendMin == r.max && r.setQueue != []
    requires Enumerates(order, r.CloseBatch(later).Expired(later))
    ensures (forall k :: k in order ==> k in r.queue) && r.Prepared(later, order).Valid()
    ensures r.Prepared(later, order).Emission() ==
      [FrameSet(0x84, r.max, r.setQueue)] + Renamed(r.queue, order, r.max + 1)
  {
    ClosedBatch(r, later);
    EmissionAfterClosing(r, later, order);
  }

  /** In `r` only `frames` wait, as the batch. */
  ghost predicate Batched(queue: map<nat, FrameSet>, max: nat, frames: seq<Frame>, r: SendQueue) {
    r.Valid() && r.queue == queue && r.sendMin == r.max == max && r.setQueue == frames
  }

  lemma AllJoinBatch(q: SendQueue, frames: seq<Frame>, now: nat)
    requires q.Valid() && q.setQueue == [] && q.sendMin == q.max && frames != []
    requires (forall f :: f in frames ==> !f.split) && TotalLength(frames) < q.mtu - 42
    ensures Batched(q.queue, q.max, frames, q.AddAll(frames, now))
  {
    AddAllKeeps(q, frames, now);
    AllJoin(q, frames, now);
  }

  /** An emission that begins with `frames` in one datagram, numbered `max`, and then puts
      out again the sets of `queue` that `order` lists. */
  ghost predicate EmitsBatch(p: SendQueue, queue: map<nat, FrameSet>, max: nat, frames: seq<Frame>, order: seq<nat>) {
    && (forall k :: k in order ==> k in queue) && p.Valid()
    && p.Emission() == [FrameSet(0x84, max, frames)] + Renamed(queue, order, max + 1)
  }

  lemma JoinedIsEmitted(queue: map<nat, FrameSet>, max: nat, frames: seq<Frame>, r: SendQueue,
                        later: nat, order: seq<nat>)
    requires Batched(queue, max, frames, r) && frames != []
    requires Enumerates(order, r.CloseBatch(later).Expired(later))
    ensures EmitsBatch(r.Prepared(later, order), queue, max, frames, order)
  {
    BatchIsEmitted(r, later, order);
  }

  /** Whole frames that together stay below the budget go out in one datagram, in the order
      in which they were handed over: with nothing else waiting, the next emission is that
      datagram, and then whatever is overdue. */
  lemma BatchGoesOutTogether(q: SendQueue, frames: seq<Frame>, now: nat, r: SendQueue, later: nat, order: seq<nat>)
    requires q.Valid() && q.setQueue == [] && q.sendMin == q.max && frames != []
    requires (forall f :: f in frames ==> !f.split) && TotalLength(frames) < q.mtu - 42
    requires r == q.AddAll(frames, now) && Enumerates(order, r.CloseBatch(later).Expired(later))
    ensures EmitsBatch(r.Prepared(later, order), q.queue, q.max, frames, order)
  {
    AllJoinBatch(q, frames, now);
    JoinedIsEmitted(q.queue, q.max, frames, r, later, order);
  }
}
