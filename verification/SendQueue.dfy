/** What the sending queue does: batching under the MTU, numbering, and retransmission. */
module SendQueues {
  import opened Frames

  /** When a frame set was numbered, and whether it has been emitted since. */
  datatype Stamp = Stamp(at: nat, sent: bool)

  const RESEND_MILLIS := 1000

  /** The state of a sending queue, and what each operation makes of it. */
  datatype SendQueue = SendQueue(
    queue: map<nat, FrameSet>,
    timePassed: map<nat, Stamp>,
    max: nat,
    sendMin: nat,
    resend: seq<nat>,
    setSize: nat,
    setQueue: seq<Frame>,
    mtu: nat)
  {
    function AddFrame(frame: Frame, now: nat): SendQueue {
      if setSize + frame.Length() < mtu - 42 && !frame.split then
        this.(setSize := setSize + frame.Length(), setQueue := setQueue + [frame])
      else
        var header: byte := if frame.split
                            then DATAGRAM_FLAG + NEEDS_B_AND_AS_FLAG + CONTINUOUS_SEND_FLAG
                            else DATAGRAM_FLAG + NEEDS_B_AND_AS_FLAG;
        Add(FrameSet(header, max, [frame]), now)
    }

    function Add(frameSet: FrameSet, now: nat): SendQueue {
      if frameSet.sequenceNumber == max then
        this.(max := max + 1,
              timePassed := timePassed[frameSet.sequenceNumber := Stamp(now, false)],
              queue := queue[frameSet.sequenceNumber := frameSet])
      else
        this
    }

    /** An ACK for `sequence` came in. */
    function Received(sequence: nat): SendQueue {
      if sequence in queue then
        this.(queue := queue - {sequence}, timePassed := timePassed - {sequence})
      else
        this
    }

    /** The pending batch becomes a frame set of its own. */
    function CloseBatch(now: nat): SendQueue {
      if setQueue != [] then
        Add(FrameSet(DATAGRAM_FLAG + NEEDS_B_AND_AS_FLAG, max, setQueue), now).(setQueue := [], setSize := 0)
      else
        this
    }

    /** The frame set that the pending batch becomes, if there is one. */
    function Batch(): seq<FrameSet> {
      if setQueue != [] then [FrameSet(DATAGRAM_FLAG + NEEDS_B_AND_AS_FLAG, max, setQueue)] else []
    }

    predicate IsExpired(k: nat, now: nat) {
      k in timePassed && timePassed[k].sent && now - timePassed[k].at > RESEND_MILLIS
    }

    /** The emitted frame sets whose acknowledgement is overdue. */
    function Expired(now: nat): set<nat> {
      set k | k in timePassed && IsExpired(k, now)
    }

    /** `order` is the order in which the hash table yields the overdue entries. */
    function Tick(now: nat, order: seq<nat>): SendQueue {
      CloseBatch(now).(resend := resend + order)
    }

    /** The frame set numbered `k` gets the next free number. */
    function Renumber(k: nat, now: nat): SendQueue
      requires k in queue
    {
      this.(queue := queue[max := queue[k].(sequenceNumber := max)] - {k},
            timePassed := (timePassed - {k})[max := Stamp(now, false)],
            max := max + 1)
    }

    function RenumberAll(ks: seq<nat>, now: nat): SendQueue
      decreases |ks|
    {
      if ks == [] then this
      else (if ks[0] in queue then Renumber(ks[0], now) else this).RenumberAll(ks[1..], now)
    }

    function Readd(now: nat): SendQueue {
      RenumberAll(resend, now).(resend := [])
    }

    /** A NACK for `index` came in. A stamped number without a frame set would stop the
        program; `Consistent` says there is none. */
    function Resend(index: nat, now: nat): SendQueue {
      if index in timePassed && index in queue then Renumber(index, now) else this
    }

    /** The ACKs for `ks` came in, one after the other. */
    function ReceivedAll(ks: seq<nat>): SendQueue
      decreases |ks|
    {
      if ks == [] then this else Received(ks[0]).ReceivedAll(ks[1..])
    }

    /** The frame sets that the ACKs for `ks` remove. */
    function Removed(ks: seq<nat>): seq<FrameSet>
      decreases |ks|
    {
      if ks == [] then []
      else (if ks[0] in queue then [queue[ks[0]]] else []) + Received(ks[0]).Removed(ks[1..])
    }

    /** The queue without the frame sets numbered in `ks`. */
    function Without(ks: set<nat>): SendQueue {
      this.(queue := queue - ks, timePassed := timePassed - ks)
    }

    /** The NACKs for `ks` came in, one after the other. */
    function ResendAll(ks: seq<nat>, now: nat): SendQueue
      decreases |ks|
    {
      if ks == [] then this else Resend(ks[0], now).ResendAll(ks[1..], now)
    }

    function AddAll(frames: seq<Frame>, now: nat): SendQueue {
      if frames == [] then this
      else AddAll(frames[..|frames| - 1], now).AddFrame(frames[|frames| - 1], now)
    }

    /** The state from which `GetPacket` emits: batch closed, overdue frame sets renumbered. */
    function Prepared(now: nat, order: seq<nat>): SendQueue {
      Tick(now, order).Readd(now)
    }

    /** Every number that is due for emission is still in the queue. */
    ghost predicate Window() {
      forall k :: sendMin <= k < max ==> k in queue && k in timePassed
    }

    /** What `GetPacket` emits from a prepared state. */
    function Emission(): (out: seq<FrameSet>)
      requires Window() && sendMin <= max
    {
      Slice(queue, sendMin, max)
    }

    /** A prepared state after everything in the window has been emitted. */
    function Emitted(): SendQueue {
      this.(timePassed := Marked(timePassed, sendMin, max), sendMin := max)
    }

    /** What every operation keeps, whatever the peer sends. */
    ghost predicate Consistent() {
      && (forall k :: k in queue <==> k in timePassed)
      && sendMin <= max
      && (forall k :: k in queue ==> k < max && queue[k].sequenceNumber == k)
      && (forall k :: k in timePassed ==> (timePassed[k].sent <==> k < sendMin))
      && setSize == TotalLength(setQueue)
      && (setQueue != [] ==> setSize < mtu - 42)
      && (forall f :: f in setQueue ==> !f.split)
    }

    /** The state between calls: nothing due for emission has been taken away. */
    ghost predicate Valid() {
      Consistent() && Window() && resend == []
    }

    /** How often the queue holds frame `f`, batched or numbered. */
    ghost function Count(f: Frame): nat {
      multiset(setQueue)[f] + CountBelow(queue, max, f)
    }
  }

  /** The frame sets numbered `lo` up to `hi`. */
  function Slice(queue: map<nat, FrameSet>, lo: nat, hi: nat): (out: seq<FrameSet>)
    requires lo <= hi && forall k :: lo <= k < hi ==> k in queue
    ensures |out| == hi - lo
    ensures forall i :: 0 <= i < |out| ==> out[i] == queue[lo + i]
  {
    if lo == hi then [] else Slice(queue, lo, hi - 1) + [queue[hi - 1]]
  }

  /** The sets numbered as in `ks`, under the numbers from `max` on. */
  function Renamed(queue: map<nat, FrameSet>, ks: seq<nat>, max: nat): (out: seq<FrameSet>)
    requires forall k :: k in ks ==> k in queue
    ensures |out| == |ks|
    ensures forall i :: 0 <= i < |out| ==> out[i] == queue[ks[i]].(sequenceNumber := max + i)
  {
    if ks == [] then []
    else
      var last := |ks| - 1;
      Renamed(queue, ks[..last], max) + [queue[ks[last]].(sequenceNumber := max + last)]
  }

  /** The stamps after the numbers `lo` up to `hi` have been emitted. */
  function Marked(timePassed: map<nat, Stamp>, lo: nat, hi: nat): map<nat, Stamp> {
    map k | k in timePassed :: if lo <= k < hi then timePassed[k].(sent := true) else timePassed[k]
  }

  lemma MarkedNext(timePassed: map<nat, Stamp>, lo: nat, i: nat)
    requires i in timePassed && lo <= i
    ensures var marked := Marked(timePassed, lo, i);
            i in marked && marked[i := marked[i].(sent := true)] == Marked(timePassed, lo, i + 1)
  {
  }

  function EmptyQueue(mtu: nat): SendQueue {
    SendQueue(map[], map[], 0, 0, [], 0, [], mtu)
  }

  /** How often frame `f` occurs in the frame sets numbered below `n`. */
  ghost function CountBelow(queue: map<nat, FrameSet>, n: nat, f: Frame): nat {
    if n == 0 then 0
    else CountBelow(queue, n - 1, f) + (if n - 1 in queue then multiset(queue[n - 1].datas)[f] else 0)
  }

  lemma {:induction false} CountBelowAgree(p: map<nat, FrameSet>, q: map<nat, FrameSet>, n: nat, f: Frame)
    requires forall k :: k < n ==> (k in p <==> k in q) && (k in p ==> p[k] == q[k])
    ensures CountBelow(p, n, f) == CountBelow(q, n, f)
  {
    if n > 0 { CountBelowAgree(p, q, n - 1, f); }
  }

  lemma {:induction false} CountBelowRemove(q: map<nat, FrameSet>, k: nat, n: nat, f: Frame)
    requires k in q && k < n
    ensures CountBelow(q - {k}, n, f) + multiset(q[k].datas)[f] == CountBelow(q, n, f)
  {
    if k == n - 1 {
      CountBelowAgree(q - {k}, q, n - 1, f);
    } else {
      CountBelowRemove(q, k, n - 1, f);
    }
  }

  lemma {:induction false} CountBelowFinds(q: map<nat, FrameSet>, n: nat, f: Frame) returns (k: nat)
    requires CountBelow(q, n, f) > 0
    ensures k in q && k < n && f in q[k].datas
  {
    if n - 1 in q && f in q[n - 1].datas {
      k := n - 1;
    } else {
      k := CountBelowFinds(q, n - 1, f);
    }
  }

  /** Renumbering as a whole: the frames stay, under another number. */
  lemma CountBelowMove(q: map<nat, FrameSet>, k: nat, n: nat, moved: FrameSet, f: Frame)
    requires k in q && k < n && moved.datas == q[k].datas
    ensures CountBelow(q[n := moved] - {k}, n + 1, f) == CountBelow(q, n, f)
  {
    CountBelowAgree(q, q[n := moved], n, f);
    CountBelowRemove(q[n := moved], k, n + 1, f);
  }

  lemma AddKeeps(q: SendQueue, frameSet: FrameSet, now: nat)
    requires q.Consistent() && frameSet.sequenceNumber == q.max
    ensures q.Add(frameSet, now).Consistent() && (q.Window() ==> q.Add(frameSet, now).Window())
  {
  }

  lemma BatchKeeps(q: SendQueue, frame: Frame, now: nat)
    requires q.Consistent() && q.setSize + frame.Length() < q.mtu - 42 && !frame.split
    ensures q.AddFrame(frame, now).Consistent() && (q.Window() ==> q.AddFrame(frame, now).Window())
  {
    TotalLengthSnoc(q.setQueue, frame);
  }

  lemma AddFrameConsistent(q: SendQueue, frame: Frame, now: nat)
    requires q.Consistent()
    ensures q.AddFrame(frame, now).Consistent() && q.AddFrame(frame, now).resend == q.resend
    ensures q.Window() ==> q.AddFrame(frame, now).Window()
  {
    if q.setSize + frame.Length() < q.mtu - 42 && !frame.split {
      BatchKeeps(q, frame, now);
    } else {
      AddKeeps(q, q.AddFrame(frame, now).queue[q.max], now);
    }
  }

  lemma AddFrameKeeps(q: SendQueue, frame: Frame, now: nat)
    requires q.Valid()
    ensures q.AddFrame(frame, now).Valid()
  {
    AddFrameConsistent(q, frame, now);
  }

  /** A frame handed over is held once more than before, and no other count changes. */
  lemma AddFrameCounts(q: SendQueue, frame: Frame, now: nat, f: Frame)
    ensures q.AddFrame(frame, now).Count(f) == q.Count(f) + (if f == frame then 1 else 0)
  {
    CountBelowAgree(q.queue, q.AddFrame(frame, now).queue, q.max, f);
  }

  lemma CloseBatchKeeps(q: SendQueue, now: nat)
    requires q.Valid()
    ensures q.CloseBatch(now).Valid() && q.CloseBatch(now).setQueue == []
    ensures q.sendMin == q.CloseBatch(now).sendMin && q.max <= q.CloseBatch(now).max
    ensures forall k :: k in q.queue ==> k in q.CloseBatch(now).queue && q.CloseBatch(now).queue[k] == q.queue[k]
    ensures q.CloseBatch(now).Expired(now) == q.Expired(now)
  {
  }

  lemma CloseBatchCounts(q: SendQueue, now: nat, f: Frame)
    ensures q.CloseBatch(now).Count(f) == q.Count(f)
  {
    CountBelowAgree(q.queue, q.CloseBatch(now).queue, q.max, f);
  }

  /** An acknowledgement removes exactly the frame set it names. */
  lemma ReceivedCounts(q: SendQueue, s: nat, f: Frame)
    requires q.Consistent()
    ensures s in q.queue ==> q.Received(s).Count(f) + multiset(q.queue[s].datas)[f] == q.Count(f)
    ensures s !in q.queue ==> q.Received(s) == q
  {
    if s in q.queue { CountBelowRemove(q.queue, s, q.max, f); }
  }

  lemma RenumberCounts(q: SendQueue, k: nat, now: nat, f: Frame)
    requires q.Consistent() && k in q.queue
    ensures q.Renumber(k, now).Count(f) == q.Count(f)
  {
    CountBelowMove(q.queue, k, q.max, q.queue[k].(sequenceNumber := q.max), f);
  }

  /** Exactly when an ACK or a NACK leaves the queue fit for the next emission: the
      number it names must not be one that is still waiting to be emitted. */
  lemma FeedbackIsSafeIff(q: SendQueue, s: nat, now: nat)
    requires q.Valid()
    ensures q.Received(s).Valid() <==> (s < q.sendMin || q.max <= s)
    ensures q.Resend(s, now).Valid() <==> (s < q.sendMin || q.max <= s)
  {
    if q.sendMin <= s < q.max {
      assert s in q.queue;
      assert !q.Received(s).Window();
      assert !q.Resend(s, now).Window();
    } else if s in q.queue {
      RenumberKeeps(q, s, now);
    }
  }

  lemma RenumberKeeps(q: SendQueue, k: nat, now: nat)
    requires q.Consistent() && q.Window() && k in q.queue && k < q.sendMin
    ensures q.Renumber(k, now).Consistent() && q.Renumber(k, now).Window()
  {
  }

  /** The numbers that a pass over `ks` finds in the queue, each at its first mention. */
  function Picked(ks: seq<nat>, keys: set<nat>): seq<nat> {
    if ks == [] then []
    else if ks[0] in keys then [ks[0]] + Picked(ks[1..], keys - {ks[0]})
    else Picked(ks[1..], keys)
  }

  lemma {:induction false} PickedIs(ks: seq<nat>, keys: set<nat>)
    ensures Enumerates(Picked(ks, keys), keys * Elems(ks))
  {
    if ks != [] {
      var k, rest := ks[0], ks[1..];
      if k in keys {
        PickedIs(rest, keys - {k});
        EnumeratesFront(k, Picked(rest, keys - {k}), (keys - {k}) * Elems(rest));
        assert keys * Elems(ks) == {k} + (keys - {k}) * Elems(rest);
      } else {
        PickedIs(rest, keys);
        assert keys * Elems(ks) == keys * Elems(rest);
      }
    }
  }

  lemma {:induction false} PickedIgnores(ks: seq<nat>, keys: set<nat>, n: nat)
    requires n !in ks
    ensures Picked(ks, keys + {n}) == Picked(ks, keys)
  {
    if ks != [] {
      assert ks[0] in ks && forall k :: k in ks[1..] ==> k in ks;
      assert keys + {n} - {ks[0]} == keys - {ks[0]} + {n};
      PickedIgnores(ks[1..], if ks[0] in keys then keys - {ks[0]} else keys, n);
    }
  }

  /** A list without repetitions of queued numbers is found as it is. */
  lemma {:induction false} PickedAll(ks: seq<nat>, keys: set<nat>)
    requires forall i, j :: 0 <= i < j < |ks| ==> ks[i] != ks[j]
    requires forall k :: k in ks ==> k in keys
    ensures Picked(ks, keys) == ks
  {
    if ks != [] {
      assert ks[0] !in ks[1..];
      PickedAll(ks[1..], keys - {ks[0]});
    }
  }

  /** What one pass of renumbering does: the set numbered `moved[i]` becomes the set
      numbered `max + i`, its frames unchanged, and all others stay put. */
  ghost predicate Moved(before: map<nat, FrameSet>, after: map<nat, FrameSet>, max: nat, moved: seq<nat>) {
    && (forall k :: k in before && k !in moved ==> k in after && after[k] == before[k])
    && (forall i :: 0 <= i < |moved| ==> moved[i] in before && MovedTo(before, after, moved[i], max + i))
    && (forall j :: j in after ==> (j in before && j !in moved) || max <= j < max + |moved|)
  }

  ghost predicate MovedTo(before: map<nat, FrameSet>, after: map<nat, FrameSet>, k: nat, j: nat) {
    k in before && j in after && after[j] == before[k].(sequenceNumber := j)
  }

  ghost predicate Renumbered(q: SendQueue, r: SendQueue, moved: seq<nat>) {
    && r.Consistent() && r.Window()
    && r == q.(queue := r.queue, timePassed := r.timePassed, max := q.max + |moved|)
    && Moved(q.queue, r.queue, q.max, moved)
  }

  /** One set moves, then the sets in `rest`. */
  lemma MovedTwice(before: map<nat, FrameSet>, after: map<nat, FrameSet>, max: nat, k: nat, rest: seq<nat>)
    requires k in before && k < max && k !in rest && max !in rest && max !in before
    requires Moved(before[max := before[k].(sequenceNumber := max)] - {k}, after, max + 1, rest)
    ensures Moved(before, after, max, [k] + rest)
  {
    var moved, mid := [k] + rest, before[max := before[k].(sequenceNumber := max)] - {k};
    forall i | 0 <= i < |moved|
      ensures moved[i] in before && MovedTo(before, after, moved[i], max + i)
    {
      if i > 0 { assert MovedTo(mid, after, rest[i - 1], max + 1 + (i - 1)); }
    }
  }

  /** Renumbering, whatever the order and repetition of the list: the listed sets that are
      queued get consecutive fresh numbers, one each. */
  lemma {:induction false} RenumberAllEffect(q: SendQueue, ks: seq<nat>, now: nat)
    requires q.Consistent() && q.Window()
    requires forall k: nat :: k in ks ==> k < q.sendMin
    ensures Renumbered(q, q.RenumberAll(ks, now), Picked(ks, q.queue.Keys))
    decreases |ks|
  {
    if ks == [] { return; }
    var k, rest := ks[0], ks[1..];
    assert k in ks && forall x: nat :: x in rest ==> x in ks;
    if k in q.queue {
      var m := q.Renumber(k, now);
      RenumberKeeps(q, k, now);
      RenumberAllEffect(m, rest, now);
      PickedNext(q, k, rest, now);
      RenumberOnce(q, k, now, m.RenumberAll(rest, now), Picked(rest, q.queue.Keys - {k}));
    } else {
      RenumberAllEffect(q, rest, now);
    }
  }

  lemma PickedNext(q: SendQueue, k: nat, rest: seq<nat>, now: nat)
    requires k in q.queue && k < q.max && forall x: nat :: x in rest ==> x < q.max
    ensures var picked := Picked(rest, q.queue.Keys - {k});
            && picked == Picked(rest, q.Renumber(k, now).queue.Keys)
            && k !in picked && q.max !in picked
  {
    assert q.Renumber(k, now).queue.Keys == q.queue.Keys - {k} + {q.max};
    PickedIgnores(rest, q.queue.Keys - {k}, q.max);
    PickedIs(rest, q.queue.Keys - {k});
  }

  lemma RenumberOnce(q: SendQueue, k: nat, now: nat, r: SendQueue, rest: seq<nat>)
    requires q.Consistent() && k in q.queue && k !in rest && q.max !in rest
    requires Renumbered(q.Renumber(k, now), r, rest)
    ensures Renumbered(q, r, [k] + rest)
  {
    MovedTwice(q.queue, r.queue, q.max, k, rest);
  }

  lemma {:induction false} RenumberAllCounts(q: SendQueue, ks: seq<nat>, now: nat, f: Frame)
    requires q.Consistent() && q.Window()
    requires forall k: nat :: k in ks ==> k < q.sendMin
    ensures q.RenumberAll(ks, now).Count(f) == q.Count(f)
    decreases |ks|
  {
    if ks == [] { return; }
    assert ks[0] in ks && (forall k: nat :: k in ks[1..] ==> k in ks);
    if ks[0] in q.queue {
      RenumberKeeps(q, ks[0], now);
      RenumberCounts(q, ks[0], now, f);
      RenumberAllCounts(q.Renumber(ks[0], now), ks[1..], now, f);
    } else {
      RenumberAllCounts(q, ks[1..], now, f);
    }
  }

  lemma ReaddIs(c: SendQueue, order: seq<nat>, now: nat)
    requires c.Consistent() && c.Window() && c.resend == []
    requires forall i, j :: 0 <= i < j < |order| ==> order[i] != order[j]
    requires forall k :: k in order ==> k < c.sendMin && k in c.queue
    ensures Renumbered(c, c.(resend := order).Readd(now), order)
  {
    RenumberAllEffect(c.(resend := order), order, now);
    PickedAll(order, c.queue.Keys);
  }

  /** Before emitting, the batch is closed and the overdue sets are renumbered in `order`. */
  lemma PreparedIs(q: SendQueue, now: nat, order: seq<nat>)
    requires q.Valid() && Enumerates(order, q.CloseBatch(now).Expired(now))
    ensures q.Prepared(now, order).Valid()
    ensures Renumbered(q.CloseBatch(now), q.Prepared(now, order), order)
  {
    CloseBatchKeeps(q, now);
    ReaddIs(q.CloseBatch(now), order, now);
    assert [] + order == order;
  }

  /** Conservation through an emission: closing, renumbering and emitting keep how often
      every frame is held, for every order in which the hash table may be walked. */
  lemma EmissionCounts(q: SendQueue, now: nat, order: seq<nat>, f: Frame)
    requires q.Valid() && Enumerates(order, q.CloseBatch(now).Expired(now))
    ensures q.Prepared(now, order).Emitted().Count(f) == q.Count(f)
  {
    var c := q.CloseBatch(now);
    CloseBatchKeeps(q, now);
    CloseBatchCounts(q, now, f);
    assert [] + order == order;
    RenumberAllCounts(c.(resend := order), order, now, f);
  }

  lemma EmittedIsValid(q: SendQueue)
    requires q.Valid()
    ensures q.Emitted().Valid()
  {
  }

  lemma EmissionAt(p: SendQueue, k: nat)
    requires p.Window() && p.sendMin <= k < p.max
    ensures |p.Emission()| == p.max - p.sendMin && p.Emission()[k - p.sendMin] == p.queue[k]
  {
  }

  /** After the batch is closed and the overdue sets renumbered, the emission is due. */
  lemma PreparedIsValid(q: SendQueue, now: nat, order: seq<nat>)
    requires q.Valid() && Enumerates(order, q.CloseBatch(now).Expired(now))
    ensures var p := q.Prepared(now, order);
            && p.Valid() && p.sendMin == q.sendMin && p.mtu == q.mtu && p.setQueue == []
            && p.max == q.max + |q.Batch()| + |order|
  {
    PreparedIs(q, now, order);
    CloseBatchKeeps(q, now);
  }

  lemma MovedIsThere(before: map<nat, FrameSet>, after: map<nat, FrameSet>, lo: nat, max: nat, moved: seq<nat>)
    requires Moved(before, after, max, moved) && lo <= max
    requires forall k :: lo <= k < max ==> k in before && k !in moved
    ensures forall k :: k in moved ==> k in before
    ensures forall k :: lo <= k < max + |moved| ==> k in after
  {
    forall k | max <= k < max + |moved|
      ensures k in after
    {
      assert MovedTo(before, after, moved[k - max], max + (k - max));
    }
  }

  lemma SliceMoved(before: map<nat, FrameSet>, after: map<nat, FrameSet>, lo: nat, max: nat, moved: seq<nat>)
    requires Moved(before, after, max, moved) && lo <= max
    requires forall k :: lo <= k < max ==> k in before && k !in moved
    ensures forall k :: k in moved ==> k in before
    ensures forall k :: lo <= k < max + |moved| ==> k in after
    ensures Slice(after, lo, max + |moved|) == Slice(before, lo, max) + Renamed(before, moved, max)
  {
    MovedIsThere(before, after, lo, max, moved);
    var all, stay, more := Slice(after, lo, max + |moved|), Slice(before, lo, max), Renamed(before, moved, max);
    forall i | 0 <= i < |stay|
      ensures all[i] == stay[i]
    {
      assert after[lo + i] == before[lo + i];
    }
    forall i | 0 <= i < |more|
      ensures all[|stay| + i] == more[i]
    {
      assert MovedTo(before, after, moved[i], max + i);
    }
    JoinIs(all, stay, more);
  }

  lemma SliceClosed(q: SendQueue, now: nat)
    requires q.Valid() && q.CloseBatch(now).sendMin <= q.CloseBatch(now).max && q.CloseBatch(now).Window()
    ensures var c := q.CloseBatch(now);
            Slice(c.queue, c.sendMin, c.max) == Slice(q.queue, q.sendMin, q.max) + q.Batch()
  {
    CloseBatchKeeps(q, now);
    SliceAgrees(q.queue, q.CloseBatch(now).queue, q.sendMin, q.max);
  }

  lemma SliceAgrees(before: map<nat, FrameSet>, after: map<nat, FrameSet>, lo: nat, hi: nat)
    requires lo <= hi && forall k :: lo <= k < hi ==> k in before && k in after && after[k] == before[k]
    ensures Slice(after, lo, hi) == Slice(before, lo, hi)
  {
    forall i | 0 <= i < hi - lo
      ensures Slice(after, lo, hi)[i] == Slice(before, lo, hi)[i]
    {
      assert after[lo + i] == before[lo + i];
    }
  }

  lemma RenamedAgrees(before: map<nat, FrameSet>, after: map<nat, FrameSet>, ks: seq<nat>, max: nat)
    requires forall k :: k in ks ==> k in before && k in after && after[k] == before[k]
    ensures Renamed(after, ks, max) == Renamed(before, ks, max)
  {
    forall i | 0 <= i < |ks|
      ensures Renamed(after, ks, max)[i] == Renamed(before, ks, max)[i]
    {
      assert ks[i] in ks;
    }
  }

  /** The overdue sets were emitted, so they lie below the window. */
  lemma OverdueIsOld(q: SendQueue, now: nat, order: seq<nat>)
    requires q.Valid() && Enumerates(order, q.CloseBatch(now).Expired(now))
    ensures Enumerates(order, q.Expired(now))
    ensures forall k :: k in order ==>
      && k < q.sendMin && k in q.queue
      && k in q.CloseBatch(now).queue && q.CloseBatch(now).queue[k] == q.queue[k]
  {
    CloseBatchKeeps(q, now);
  }

  /** An emission adds the overdue sets to what the closed queue has to emit. */
  lemma EmissionAfterClosing(q: SendQueue, now: nat, order: seq<nat>)
    requires q.Valid() && Enumerates(order, q.CloseBatch(now).Expired(now))
    ensures Enumerates(order, q.Expired(now)) && forall k :: k in order ==> k in q.queue
    ensures q.Prepared(now, order).Valid()
    ensures var c := q.CloseBatch(now);
            && c.sendMin <= c.max && c.Window()
            && q.Prepared(now, order).Emission() == Slice(c.queue, c.sendMin, c.max) + Renamed(q.queue, order, c.max)
  {
    PreparedIs(q, now, order);
    OverdueIsOld(q, now, order);
    EmissionFrom(q, q.CloseBatch(now), q.Prepared(now, order), order);
  }

  /** Retransmission is exact: an emission holds the sets that waited for it under their
      own numbers, then the closed batch, then the overdue sets in the order of the hash
      table, each once and under the next free number, and nothing else. */
  lemma EmissionIsExact(q: SendQueue, now: nat, order: seq<nat>)
    requires q.Valid() && Enumerates(order, q.CloseBatch(now).Expired(now))
    ensures Enumerates(order, q.Expired(now)) && forall k :: k in order ==> k in q.queue
    ensures q.Prepared(now, order).Valid()
    ensures var c := q.CloseBatch(now);
            && c.sendMin <= c.max && c.Window()
            && Slice(c.queue, c.sendMin, c.max) == Slice(q.queue, q.sendMin, q.max) + q.Batch()
            && q.Prepared(now, order).Emission() == Slice(c.queue, c.sendMin, c.max) + Renamed(q.queue, order, c.max)
  {
    EmissionAfterClosing(q, now, order);
    SliceClosed(q, now);
  }

  lemma EmissionFrom(q: SendQueue, c: SendQueue, p: SendQueue, order: seq<nat>)
    requires Renumbered(c, p, order) && c.Window() && c.sendMin <= c.max
    requires forall k :: k in order ==> k < c.sendMin && k in q.queue && k in c.queue && c.queue[k] == q.queue[k]
    ensures p.Emission() == Slice(c.queue, c.sendMin, c.max) + Renamed(q.queue, order, c.max)
  {
    SliceMoved(c.queue, p.queue, c.sendMin, c.max, order);
    RenamedAgrees(q.queue, c.queue, order, c.max);
  }

  /** What stays in the queue when a new emission begins: what was emitted before and is
      not overdue keeps its number and its frames. */
  lemma NotOverdueStays(q: SendQueue, now: nat, order: seq<nat>, k: nat)
    requires q.Valid() && Enumerates(order, q.CloseBatch(now).Expired(now)) && k < q.sendMin
    ensures k in q.Prepared(now, order).queue <==> k in q.queue && !q.IsExpired(k, now)
    ensures k in q.Prepared(now, order).queue ==> q.Prepared(now, order).queue[k] == q.queue[k]
  {
    PreparedIs(q, now, order);
    CloseBatchKeeps(q, now);
    assert k in order <==> k in q.Expired(now);
  }

  lemma RenamedHas(waiting: seq<FrameSet>, queue: map<nat, FrameSet>, order: seq<nat>, max: nat, k: nat)
    requires k in order && forall j :: j in order ==> j in queue
    ensures exists d :: d in waiting + Renamed(queue, order, max)
                        && max <= d.sequenceNumber && d.datas == queue[k].datas
  {
    var i :| 0 <= i < |order| && order[i] == k;
    var d := queue[k].(sequenceNumber := max + i);
    assert Renamed(queue, order, max)[i] == d;
    assert d in waiting + Renamed(queue, order, max);
  }

  /** Retransmission is complete: every overdue frame set leaves its number and is put
      out in this same emission, its frames unchanged, under a number never used before. */
  lemma EmissionIsComplete(q: SendQueue, now: nat, order: seq<nat>, k: nat)
    requires q.Valid() && Enumerates(order, q.CloseBatch(now).Expired(now))
    requires k in q.queue && k < q.sendMin && now - q.timePassed[k].at > 1000
    ensures q.Prepared(now, order).Valid() && k !in q.Prepared(now, order).queue
    ensures exists d :: d in q.Prepared(now, order).Emission()
                        && q.max <= d.sequenceNumber && d.datas == q.queue[k].datas
  {
    EmissionAfterClosing(q, now, order);
    NotOverdueStays(q, now, order, k);
    var c := q.CloseBatch(now);
    assert k in q.Expired(now) && k in order;
    RenamedHas(Slice(c.queue, c.sendMin, c.max), q.queue, order, c.max, k);
  }

  lemma {:induction false} AddAllKeeps(q: SendQueue, frames: seq<Frame>, now: nat)
    requires q.Valid()
    ensures q.AddAll(frames, now).Valid()
    ensures q.AddAll(frames, now).sendMin == q.sendMin && q.AddAll(frames, now).mtu == q.mtu
    ensures forall k :: k < q.sendMin ==> (k in q.AddAll(frames, now).queue <==> k in q.queue)
    ensures forall k :: k < q.sendMin && k in q.queue ==> q.AddAll(frames, now).queue[k] == q.queue[k]
  {
    if frames != [] {
      AddAllKeeps(q, frames[..|frames| - 1], now);
      AddFrameKeeps(q.AddAll(frames[..|frames| - 1], now), frames[|frames| - 1], now);
    }
  }

  lemma {:induction false} AddAllCounts(q: SendQueue, frames: seq<Frame>, now: nat, f: Frame)
    ensures q.AddAll(frames, now).Count(f) == q.Count(f) + multiset(frames)[f]
  {
    if frames != [] {
      var front, last := frames[..|frames| - 1], frames[|frames| - 1];
      AddAllCounts(q, front, now, f);
      AddFrameCounts(q.AddAll(front, now), last, now, f);
      assert frames == front + [last];
    }
  }

  lemma ReceivedIsWithout(q: SendQueue, k: nat, ks: set<nat>)
    requires q.Consistent()
    ensures q.Received(k).Consistent() && q.Received(k).Without(ks) == q.Without({k} + ks)
  {
  }

  /** A list of ACKs, whatever it names, removes exactly the frame sets it names. */
  lemma {:induction false} ReceivedAllIsWithout(q: SendQueue, ks: seq<nat>)
    requires q.Consistent()
    ensures q.ReceivedAll(ks) == q.Without(Elems(ks))
    decreases |ks|
  {
    if ks != [] {
      ReceivedIsWithout(q, ks[0], Elems(ks[1..]));
      ReceivedAllIsWithout(q.Received(ks[0]), ks[1..]);
      assert Elems(ks) == {ks[0]} + Elems(ks[1..]);
    }
  }

  /** ACKs for emitted numbers leave a valid queue. */
  lemma ReceivedAllEffect(q: SendQueue, ks: seq<nat>)
    requires q.Valid() && forall k :: k in ks ==> k < q.sendMin
    ensures q.ReceivedAll(ks).Valid() && q.ReceivedAll(ks) == q.Without(Elems(ks))
  {
    ReceivedAllIsWithout(q, ks);
  }

  /** What a list of ACKs removes is what was queued under the numbers named. */
  lemma {:induction false} RemovedWereQueued(q: SendQueue, ks: seq<nat>)
    requires q.Consistent()
    ensures forall d :: d in q.Removed(ks) ==>
      d.sequenceNumber in ks && d.sequenceNumber in q.queue && d == q.queue[d.sequenceNumber]
    decreases |ks|
  {
    if ks != [] {
      ReceivedIsWithout(q, ks[0], {});
      RemovedWereQueued(q.Received(ks[0]), ks[1..]);
    }
  }

  /** How often frame `f` occurs in a list of frame sets. */
  ghost function CountIn(sets: seq<FrameSet>, f: Frame): nat {
    if sets == [] then 0 else multiset(sets[0].datas)[f] + CountIn(sets[1..], f)
  }

  lemma {:induction false} CountInJoin(a: seq<FrameSet>, b: seq<FrameSet>, f: Frame)
    ensures CountIn(a + b, f) == CountIn(a, f) + CountIn(b, f)
  {
    if a == [] {
      assert a + b == b;
    } else {
      assert (a + b)[1..] == a[1..] + b;
      CountInJoin(a[1..], b, f);
    }
  }

  lemma {:induction false} ReceivedAllCounts(q: SendQueue, ks: seq<nat>, f: Frame)
    requires q.Valid() && forall k :: k in ks ==> k < q.sendMin
    ensures q.ReceivedAll(ks).Count(f) + CountIn(q.Removed(ks), f) == q.Count(f)
    decreases |ks|
  {
    if ks != [] {
      assert ks[0] in ks && forall k :: k in ks[1..] ==> k in ks;
      FeedbackIsSafeIff(q, ks[0], 0);
      ReceivedCounts(q, ks[0], f);
      ReceivedAllCounts(q.Received(ks[0]), ks[1..], f);
      var head := if ks[0] in q.queue then [q.queue[ks[0]]] else [];
      CountInJoin(head, q.Received(ks[0]).Removed(ks[1..]), f);
      assert ks[0] in q.queue ==> head[1..] == [];
      assert q.Removed(ks) == head + q.Received(ks[0]).Removed(ks[1..]);
    }
  }

  /** A list of NACKs renumbers exactly the frame sets it names. */
  lemma {:induction false} ResendAllIsRenumberAll(q: SendQueue, ks: seq<nat>, now: nat)
    requires q.Consistent()
    ensures q.ResendAll(ks, now) == q.RenumberAll(ks, now)
    decreases |ks|
  {
    if ks != [] {
      var m := q.Resend(ks[0], now);
      assert m.Consistent();
      ResendAllIsRenumberAll(m, ks[1..], now);
    }
  }
}
