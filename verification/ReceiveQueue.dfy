/** What the receiving queue does: reassembly of split payloads, then release in order. */
module ReceiveQueues {
  import opened Frames

  /** The fragments collected so far for one split id. */
  datatype SplitPacket = SplitPacket(
    splitSize: nat,
    data: map<nat, Frame>,
    reliability: Reliability,
    orderIndex: nat,
    full: bool)
  {
    function Add(index: nat, payload: Frame): SplitPacket {
      if index < splitSize then
        this.(data := data[index := payload], full := full || |data[index := payload]| == splitSize)
      else
        this
    }

    ghost predicate HasAll() {
      forall i :: 0 <= i < splitSize ==> i in data
    }

    /** A missing fragment would stop the program here. */
    method GetAll() returns (ret: bytes)
      requires HasAll()
      ensures ret == Joined(data, splitSize)
    {
      ret := [];
      for index := 0 to splitSize
        invariant ret == Joined(data, index)
      {
        ret := ret + data[index].data;
      }
    }

    function GetFrame(): Frame {
      NewFrame(reliability, Joined(data, splitSize)).(orderIndex := orderIndex)
    }
  }

  function NewSplitPacket(splitSize: nat, orderIndex: nat, reliability: Reliability): SplitPacket {
    SplitPacket(splitSize, map[], reliability, orderIndex, false)
  }

  /** The packet that is made for the first fragment of a payload to arrive. */
  function FirstEntry(frame: Frame): SplitPacket {
    NewSplitPacket(frame.splitCount, frame.sequenceIndex, frame.reliability).(orderIndex := frame.orderIndex)
  }

  /** The data of fragments `0` up to `n`, one after the other. */
  function Joined(data: map<nat, Frame>, n: nat): bytes {
    if n == 0 then [] else Joined(data, n - 1) + (if n - 1 in data then data[n - 1].data else [])
  }

  datatype SplitPool = SplitPool(pool: map<nat, SplitPacket>, delete: seq<nat>) {
    /** The packet that `frame` joins, whether it is already there or not. */
    function EntryFor(frame: Frame): SplitPacket {
      if frame.splitId in pool then pool[frame.splitId] else FirstEntry(frame)
    }

    function Add(frame: Frame): SplitPool {
      this.(pool := pool[frame.splitId := EntryFor(frame).Add(frame.splitIndex, frame)])
    }

    function Full(): set<nat> {
      set id | id in pool && pool[id].full
    }

    /** After the full packets, listed by their ids, have been taken out. */
    function Swept(ids: seq<nat>): SplitPool {
      SplitPool(map id | id in pool && id !in delete + ids :: pool[id], delete + ids)
    }

    /** The state between calls: nothing complete is left waiting, and a finished id is not open. */
    ghost predicate Tidy() {
      && (forall id :: id in pool ==> TidyEntry(pool[id]))
      && (forall id :: id in delete ==> id !in pool)
    }
  }

  ghost predicate TidyEntry(p: SplitPacket) {
    && !p.full
    && (forall i :: i in p.data ==> i < p.splitSize)
    && (p.splitSize > 0 ==> |p.data| < p.splitSize)
  }

  datatype RecvState = RecvState(min: nat, max: nat, packetQueue: map<nat, Frame>, splits: SplitPool) {
    function Insert(f: Frame): RecvState {
      this.(max := if f.orderIndex >= max then f.orderIndex + 1 else max,
            packetQueue := packetQueue[f.orderIndex := f])
    }

    function Add(frame: Frame): RecvState {
      if frame.split then
        var after := splits.Add(frame);
        var entry := after.pool[frame.splitId];
        if entry.full then
          this.(splits := after.Swept([frame.splitId])).Insert(entry.GetFrame())
        else
          this.(splits := after.Swept([]))
      else if frame.orderIndex < min || frame.orderIndex in packetQueue then
        this
      else
        Insert(frame)
    }

    /** The frames that are due, starting at order index `min`. */
    function Due(): seq<Frame> {
      DueFrom(packetQueue, min, max)
    }

    /** After everything due has been released. */
    function Released(): RecvState {
      var next := min + |Due()|;
      this.(min := next, packetQueue := map o | o in packetQueue && !(min <= o < next) :: packetQueue[o])
    }
  }

  function DueFrom(queue: map<nat, Frame>, lo: nat, hi: nat): (due: seq<Frame>)
    ensures |due| <= if lo <= hi then hi - lo else 0
    decreases if lo <= hi then hi - lo else 0
  {
    if lo < hi && lo in queue then [queue[lo]] + DueFrom(queue, lo + 1, hi) else []
  }

  const EmptyReceiver := RecvState(0, 0, map[], SplitPool(map[], []))

  lemma {:induction false} BoundedSet(s: set<nat>, n: nat)
    requires forall i :: i in s ==> i < n
    ensures |s| <= n
    ensures |s| == n <==> forall i: nat :: i < n ==> i in s
  {
    if n == 0 {
      assert s == {};
    } else {
      BoundedSet(s - {n - 1}, n - 1);
      if n - 1 in s {
        assert |s| == |s - {n - 1}| + 1;
      } else {
        assert s == s - {n - 1};
      }
    }
  }

  /** A packet of a tidy pool is complete after one more fragment exactly when it then
      holds every fragment. */
  lemma FullMeansAll(p: SplitPacket, index: nat, payload: Frame)
    requires TidyEntry(p)
    ensures var q := p.Add(index, payload);
            && (q.full ==> q.HasAll())
            && (q.full <==> index < p.splitSize && q.HasAll())
            && (forall i :: i in q.data ==> i < q.splitSize)
            && (!q.full ==> TidyEntry(q))
  {
    var q := p.Add(index, payload);
    BoundedSet(q.data.Keys, q.splitSize);
    assert |q.data| == |q.data.Keys|;
  }

  /** A fragment is stored under its index if that is in range, and changes nothing else. */
  lemma FragmentIsStored(p: SplitPacket, index: nat, payload: Frame)
    ensures var q := p.Add(index, payload);
            && q.splitSize == p.splitSize && q.reliability == p.reliability && q.orderIndex == p.orderIndex
            && q.data == if index < p.splitSize then p.data[index := payload] else p.data
  {
  }

  /** After any frame at all, the pool is tidy again, and at most the packet this frame
      belongs to was complete. */
  lemma AddKeepsTidy(s: SplitPool, frame: Frame)
    requires s.Tidy()
    ensures var after := s.Add(frame);
            && (after.Full() == if after.pool[frame.splitId].full then {frame.splitId} else {})
            && (after.pool[frame.splitId].full ==> after.pool[frame.splitId].HasAll())
            && after.Swept(if after.pool[frame.splitId].full then [frame.splitId] else []).Tidy()
  {
    FullMeansAll(s.EntryFor(frame), frame.splitIndex, frame);
  }

  lemma {:induction false} DueFromIs(queue: map<nat, Frame>, lo: nat, hi: nat)
    ensures var due := DueFrom(queue, lo, hi);
            && (forall k :: lo <= k < lo + |due| ==> k in queue && due[k - lo] == queue[k])
            && (lo + |due| < hi ==> lo + |due| !in queue)
    decreases if lo <= hi then hi - lo else 0
  {
    if lo < hi && lo in queue {
      DueFromIs(queue, lo + 1, hi);
      var due, rest := DueFrom(queue, lo, hi), DueFrom(queue, lo + 1, hi);
      forall k | lo <= k < lo + |due|
        ensures k in queue && due[k - lo] == queue[k]
      {
        if k > lo { assert due[k - lo] == rest[k - lo - 1]; }
      }
    }
  }

  /** A receiving queue, what it has released so far, and the split ids it has completed. */
  datatype History = History(state: RecvState, released: seq<Frame>, completed: seq<nat>) {
    /** One frame arrives: it is added, then what is due is released. */
    function Feed(f: Frame): History {
      History(state.Add(f).Released(), released + state.Add(f).Due(), completed + Completes(state, f))
    }

    ghost predicate InOrder() {
      && Filed(state)
      && |released| == state.min
      && (forall i :: 0 <= i < |released| ==> released[i].orderIndex == i)
      && state.min !in state.packetQueue
    }

    ghost predicate AtMostOnce(id: nat) {
      && multiset(completed)[id] <= 1
      && (id in completed <==> id in state.splits.delete)
      && (id in completed ==> id !in state.splits.pool)
    }
  }

  /** What a run of frames makes of an empty queue. */
  function Run(frames: seq<Frame>): History {
    if frames == [] then History(EmptyReceiver, [], []) else Run(frames[..|frames| - 1]).Feed(frames[|frames| - 1])
  }

  /** The split id that frame `f` completes, if it does. */
  function Completes(r: RecvState, f: Frame): seq<nat> {
    if f.split && r.splits.Add(f).pool[f.splitId].full then [f.splitId] else []
  }

  ghost predicate Filed(r: RecvState) {
    && (forall o :: o in r.packetQueue ==> o < r.max && r.packetQueue[o].orderIndex == o)
    && r.splits.Tidy()
  }

  lemma AddKeepsFiled(r: RecvState, f: Frame)
    requires Filed(r)
    ensures Filed(r.Add(f)) && r.Add(f).min == r.min
  {
    if f.split { AddKeepsTidy(r.splits, f); }
  }

  lemma ReleaseIsMaximal(r: RecvState)
    requires Filed(r)
    ensures Filed(r.Released()) && r.Released().min !in r.Released().packetQueue
    ensures r.Released().min == r.min + |r.Due()|
    ensures forall i :: 0 <= i < |r.Due()| ==> r.Due()[i].orderIndex == r.min + i
  {
    DueFromIs(r.packetQueue, r.min, r.max);
    forall i | 0 <= i < |r.Due()|
      ensures r.Due()[i].orderIndex == r.min + i
    {
      var k := r.min + i;
      assert k in r.packetQueue && r.Due()[k - r.min] == r.packetQueue[k];
    }
  }

  /** A release loses nothing: of what was filed, exactly the frames with the indices it
      released are gone. */
  lemma ReleaseKeepsTheRest(r: RecvState)
    ensures forall o :: o in r.Released().packetQueue <==> o in r.packetQueue && !(r.min <= o < r.min + |r.Due()|)
    ensures forall o :: o in r.Released().packetQueue ==> r.Released().packetQueue[o] == r.packetQueue[o]
    ensures r.Released().max == r.max && r.Released().splits == r.splits
  {
  }

  lemma FeedKeepsOrder(h: History, f: Frame)
    requires h.InOrder()
    ensures h.Feed(f).InOrder()
  {
    AddKeepsFiled(h.state, f);
    ReleaseIsMaximal(h.state.Add(f));
  }

  /** Release is in order, without gaps and maximal, whatever frames arrive: over every
      run the released frames carry the order indices 0, 1, 2, ... and the next index is
      not held back. */
  lemma {:induction false} ReleaseIsInOrder(frames: seq<Frame>)
    ensures Run(frames).InOrder()
  {
    if frames != [] {
      ReleaseIsInOrder(frames[..|frames| - 1]);
      FeedKeepsOrder(Run(frames[..|frames| - 1]), frames[|frames| - 1]);
    }
  }

  /** A finished split id opens again exactly when a late frame claims to be the only
      fragment of its payload; any other late fragment is dropped on the spot. */
  lemma LateFragment(r: RecvState, f: Frame)
    requires r.splits.Tidy() && f.split && f.splitId in r.splits.delete
    ensures Completes(r, f) == [f.splitId] <==> f.splitCount == 1 && f.splitIndex == 0
    ensures f.splitId in r.Add(f).splits.delete && f.splitId !in r.Add(f).splits.pool
    ensures Completes(r, f) == [] ==> r.Add(f).splits.pool == r.splits.pool && r.Add(f).packetQueue == r.packetQueue
  {
    assert |map[f.splitIndex := f]| == 1;
    assert FirstEntry(f).data[f.splitIndex := f] == map[f.splitIndex := f];
  }

  lemma OnlyFragmentCompletes(h: History, f: Frame)
    requires f.split && f.splitCount == 1 && f.splitIndex == 0 && f.splitId !in h.state.splits.pool
    ensures h.Feed(f).completed == h.completed + [f.splitId]
    ensures f.splitId in h.Feed(f).state.splits.delete && f.splitId !in h.Feed(f).state.splits.pool
  {
    assert FirstEntry(f).data[0 := f] == map[0 := f] && |map[0 := f]| == 1;
  }

  /** The only fragment of a payload completes it as often as it arrives. */
  lemma CompletesTwice(f: Frame)
    requires f.split && f.splitCount == 1 && f.splitIndex == 0
    ensures Run([f, f]).completed == [f.splitId, f.splitId]
  {
    assert [f, f][..1] == [f] && [f][..0] == [];
    OnlyFragmentCompletes(Run([]), f);
    OnlyFragmentCompletes(Run([f]), f);
  }

  lemma FeedKeepsOnce(h: History, f: Frame, id: nat)
    requires h.state.splits.Tidy() && h.AtMostOnce(id)
    requires f.split && f.splitId == id ==> f.splitCount != 1
    ensures h.Feed(f).AtMostOnce(id)
  {
  }

  /** Reassembly happens at most once for each split id that is used for payloads of two
      or more fragments, over every run of frames, late and duplicate ones included; and
      once it has happened nothing is kept for that id any more. */
  lemma {:induction false} ReassemblyIsAtMostOnce(frames: seq<Frame>, id: nat)
    requires forall f :: f in frames && f.split && f.splitId == id ==> f.splitCount != 1
    ensures Run(frames).AtMostOnce(id)
  {
    if frames != [] {
      assert frames == frames[..|frames| - 1] + [frames[|frames| - 1]];
      ReassemblyIsAtMostOnce(frames[..|frames| - 1], id);
      ReleaseIsInOrder(frames[..|frames| - 1]);
      FeedKeepsOnce(Run(frames[..|frames| - 1]), frames[|frames| - 1], id);
    }
  }

  // ---- Whole frames ----

  /** The first of `frames` that carries the order index `o`. */
  function First(frames: seq<Frame>, o: nat): (firsts: seq<Frame>)
    ensures |firsts| <= 1
  {
    if frames == [] then []
    else
      var firsts, last := First(frames[..|frames| - 1], o), frames[|frames| - 1];
      if firsts == [] && last.orderIndex == o then [last] else firsts
  }

  /** What a queue has made of order index `o`: released it, or filed it. */
  function Held(h: History, o: nat): seq<Frame> {
    if o < |h.released| then [h.released[o]]
    else if o in h.state.packetQueue then [h.state.packetQueue[o]]
    else []
  }

  /** Nothing is kept that has been released. */
  ghost predicate Fresh(h: History) {
    h.InOrder() && forall o :: o in h.state.packetQueue ==> o >= h.state.min
  }

  lemma ReleaseHolds(r: RecvState, released: seq<Frame>, o: nat)
    requires Filed(r) && |released| == r.min && forall k :: k in r.packetQueue ==> k >= r.min
    ensures Held(History(r.Released(), released + r.Due(), []), o) == Held(History(r, released, []), o)
    ensures forall k :: k in r.Released().packetQueue ==> k >= r.Released().min
  {
    DueFromIs(r.packetQueue, r.min, r.max);
    if r.min <= o < r.min + |r.Due()| {
      assert (released + r.Due())[o] == r.Due()[o - r.min];
    }
  }

  lemma FeedHolds(h: History, f: Frame, o: nat)
    requires Fresh(h) && !f.split
    ensures Fresh(h.Feed(f))
    ensures Held(h.Feed(f), o) == if Held(h, o) == [] && f.orderIndex == o then [f] else Held(h, o)
  {
    FeedKeepsOrder(h, f);
    AddKeepsFiled(h.state, f);
    ReleaseHolds(h.state.Add(f), h.released, o);
  }

  /** Exactly what becomes of whole frames, in whatever order and however often they come,
      and whoever sent them: of each order index the first frame counts. It has been
      released, or is filed, all later ones are ignored, and nothing is kept that has been
      released. */
  lemma {:induction false} FirstFrameCounts(frames: seq<Frame>, o: nat)
    requires forall f :: f in frames ==> !f.split
    ensures Fresh(Run(frames)) && Held(Run(frames), o) == First(frames, o)
  {
    if frames != [] {
      var front, last := frames[..|frames| - 1], frames[|frames| - 1];
      assert frames == front + [last];
      FirstFrameCounts(front, o);
      FeedHolds(Run(front), last, o);
    }
  }

  /** The upper end of the queue is just above the highest order index of `frames`. */
  ghost predicate Tops(max: nat, frames: seq<Frame>) {
    && (forall f :: f in frames ==> f.orderIndex < max)
    && (max == 0 || exists f :: f in frames && f.orderIndex + 1 == max)
  }

  lemma TopsSnoc(max: nat, max': nat, front: seq<Frame>, last: Frame)
    requires Tops(max, front) && max' == if last.orderIndex >= max then last.orderIndex + 1 else max
    ensures Tops(max', front + [last])
  {
    assert last in front + [last];
    if max' == max > 0 {
      var f :| f in front && f.orderIndex + 1 == max;
      assert f in front + [last];
    }
  }

  lemma FeedRaises(h: History, f: Frame)
    requires h.state.min <= h.state.max && !f.split
    requires forall o :: o in h.state.packetQueue ==> o < h.state.max
    ensures var r := h.Feed(f).state;
            && r.min <= r.max && (forall o :: o in r.packetQueue ==> o < r.max)
            && r.max == if f.orderIndex >= h.state.max then f.orderIndex + 1 else h.state.max
  {
  }

  lemma {:induction false} UpperEndIsExact(frames: seq<Frame>)
    requires forall f :: f in frames ==> !f.split
    ensures Tops(Run(frames).state.max, frames)
    ensures Run(frames).state.min <= Run(frames).state.max
    ensures forall o :: o in Run(frames).state.packetQueue ==> o < Run(frames).state.max
  {
    if frames != [] {
      var front, last := frames[..|frames| - 1], frames[|frames| - 1];
      assert frames == front + [last];
      UpperEndIsExact(front);
      FeedRaises(Run(front), last);
      TopsSnoc(Run(front).state.max, Run(frames).state.max, front, last);
    }
  }
}
